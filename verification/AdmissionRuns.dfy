/** What every run of admissions keeps: one use per accepted operation, one live request per requester,
  * receipts that never change, and hand-offs that survive interruption. */
module AdmissionRuns {
  import opened Wrappers
  import opened Admission
  import I = InvitationLinks

  // --- the invariant ------------------------------------------------------------

  /** The accepted operations, acknowledged or not: each has consumed a use. */
  ghost function Consumers(w: World): set<OperationId> {
    (set o | o in w.ops && w.ops[o].receipt.result.Accepted?) + w.handoffs.Keys
  }

  ghost function Input(w: World, o: OperationId): Admit
    requires o in w.ops || o in w.handoffs
  {
    if o in w.ops then w.ops[o].input else w.handoffs[o].record.input
  }

  /** The request that a consumer was admitted as. */
  ghost function RequestOf(w: World, o: OperationId): RequestId
    requires o in Consumers(w)
  {
    if o in w.handoffs then w.handoffs[o].initialization.requestId else w.ops[o].receipt.result.requestId
  }

  /** An operation is decided or handed over, not both, and it is bound to its first input. */
  ghost predicate Bound(w: World) {
    && (forall o :: o in w.ops ==> o !in w.handoffs)
    && (forall o :: o in w.ops ==> o in w.attempts && w.attempts[o] == w.ops[o].input)
    && (forall o :: o in w.handoffs ==> o in w.attempts && w.attempts[o] == w.handoffs[o].record.input)
    && (forall o :: o in w.attempts ==> w.attempts[o].op == o)
    && (forall k :: k in w.verdicts ==> k.1 in w.attempts && w.verdicts[k].attempt == w.attempts[k.1])
  }

  /** What accepted operation `o` says is what its request was admitted with. */
  ghost predicate Backed(w: World, o: OperationId)
    requires o in Consumers(w)
  {
    var id := RequestOf(w, o);
    && id in w.admissions
    && w.admissions[id].requestId == id
    && w.admissions[id].requester == Input(w, o).requester
    && w.admissions[id].justification == Input(w, o).justification
    && (o in w.handoffs ==>
          w.handoffs[o].initialization == w.admissions[id]
          && w.handoffs[o].record.receipt == AcceptedReceipt(w.admissions[id]))
    && (o !in w.handoffs ==> w.ops[o].receipt == AcceptedReceipt(w.admissions[id]) && id in w.requests)
  }

  ghost predicate EveryoneBacked(w: World) {
    && (forall o :: o in Consumers(w) ==> Backed(w, o))
    && (forall o, p :: o in Consumers(w) && p in Consumers(w) && RequestOf(w, o) == RequestOf(w, p) ==> o == p)
  }

  /** Every admission has consumed a use, and uses are never beyond the limit. */
  ghost predicate Counted(w: World) {
    && |Consumers(w)| == |w.admissions| <= w.link.uses
    && WithinLimit(w.link)
  }

  /** Every request is held as it was admitted, under the link's approval policy. */
  ghost predicate OwnersAgree(w: World) {
    && (forall r :: r in w.requests ==> r in w.admissions && w.requests[r].initial == w.admissions[r])
    && (forall r :: r in w.admissions ==> w.admissions[r].requestId == r && Policy(w.link, w.admissions[r]))
  }

  ghost predicate Policy(l: Link, init: Initialization) {
    if l.approvalRequired
    then init.state == Pending && init.deadline == Some(init.admittedAt + PENDING_LIFETIME)
    else init.state == Approved && init.deadline == None
  }

  ghost predicate Finished(w: World, r: RequestId) {
    r in w.requests && !Blocks(w.requests[r].state)
  }

  /** A verdict is about a held request, and one that did not block is about a finished one. */
  ghost predicate VerdictsStand(w: World) {
    && (forall k :: k in w.verdicts ==> k.0 in w.requests)
    && (forall k :: k in w.verdicts && !w.verdicts[k].blocking ==> Finished(w, k.0))
  }

  /** All but the latest request of a requester are finished. */
  ghost predicate OnlyLatestOpen(w: World) {
    && (forall q :: q in w.pointer ==> w.pointer[q] in w.admissions && w.admissions[w.pointer[q]].requester == q)
    && (forall r :: r in w.admissions ==>
          && w.admissions[r].requester in w.pointer
          && (w.pointer[w.admissions[r].requester] == r || Finished(w, r)))
  }

  ghost predicate Good(w: World) {
    && Bound(w)
    && EveryoneBacked(w)
    && Counted(w)
    && OwnersAgree(w)
    && VerdictsStand(w)
    && OnlyLatestOpen(w)
  }

  // --- what no step takes back --------------------------------------------------

  ghost predicate StateMoves(s: RequestState, t: RequestState) {
    s == t || s == Pending
  }

  ghost predicate RequestMoves(r: Request, s: Request) {
    r.initial == s.initial && StateMoves(r.state, s.state)
  }

  ghost predicate LinkMoves(l: Link, m: Link) {
    && l.maxUses == m.maxUses && l.expiresAt == m.expiresAt && l.approvalRequired == m.approvalRequired
    && l.uses <= m.uses && l.revision <= m.revision
    && (l.revokedAt.Some? ==> m.revokedAt == l.revokedAt)
  }

  ghost predicate HandOffMoves(w: World, v: World, o: OperationId)
    requires o in w.handoffs
  {
    if o in v.handoffs then v.handoffs[o] == w.handoffs[o]
    else o in v.ops && v.ops[o] == w.handoffs[o].record
  }

  /** Receipts, bound inputs, admissions and verdicts stay; a retained hand-off stays or becomes its receipt;
    * a request leaves only the pending state; uses only grow. */
  ghost predicate Extends(w: World, v: World) {
    && LinkMoves(w.link, v.link)
    && (forall o :: o in w.ops ==> o in v.ops && v.ops[o] == w.ops[o])
    && (forall o :: o in w.handoffs ==> HandOffMoves(w, v, o))
    && (forall o :: o in w.attempts ==> o in v.attempts && v.attempts[o] == w.attempts[o])
    && (forall r :: r in w.admissions ==> r in v.admissions && v.admissions[r] == w.admissions[r])
    && (forall r :: r in w.requests ==> r in v.requests && RequestMoves(w.requests[r], v.requests[r]))
    && (forall k :: k in w.verdicts ==> k in v.verdicts && v.verdicts[k] == w.verdicts[k])
  }

  lemma ExtendsTransitive(u: World, v: World, w: World)
    requires Extends(u, v) && Extends(v, w) && Bound(w)
    ensures Extends(u, w)
  {
    forall o | o in u.handoffs ensures HandOffMoves(u, w, o) {
      assert HandOffMoves(u, v, o);
      if o in v.handoffs {
        assert HandOffMoves(v, w, o);
      }
    }
  }

  // --- each primitive update keeps the invariant --------------------------------

  ghost predicate WithinLimit(l: Link) {
    l.maxUses.Some? ==> l.uses <= l.maxUses.value
  }

  /** `v` differs from `w` in neither operations, hand-offs nor admissions. */
  ghost predicate SameConsumers(w: World, v: World) {
    && v.ops == w.ops && v.handoffs == w.handoffs && v.admissions == w.admissions
    && v.link.maxUses == w.link.maxUses
    && (v.link.uses == w.link.uses || (w.link.uses < v.link.uses && WithinLimit(v.link)))
    && v.link.approvalRequired == w.link.approvalRequired
  }

  ghost predicate RequestsMove(w: World, v: World) {
    && v.requests.Keys == w.requests.Keys
    && (forall r :: r in w.requests ==> RequestMoves(w.requests[r], v.requests[r]))
  }

  lemma KeepsBacked(w: World, v: World)
    requires EveryoneBacked(w) && SameConsumers(w, v) && RequestsMove(w, v)
    ensures Consumers(v) == Consumers(w) && EveryoneBacked(v)
  {
    assert Consumers(v) == Consumers(w);
    forall o | o in Consumers(v) ensures Backed(v, o) && RequestOf(v, o) == RequestOf(w, o) {
      assert Backed(w, o);
    }
  }

  lemma KeepsOnlyLatestOpen(w: World, v: World)
    requires OnlyLatestOpen(w) && v.admissions == w.admissions && v.pointer == w.pointer && RequestsMove(w, v)
    ensures OnlyLatestOpen(v)
  {
    forall r | r in v.admissions && Finished(w, r) ensures Finished(v, r) {
      assert RequestMoves(w.requests[r], v.requests[r]);
    }
  }

  lemma KeepsOwnersAgree(w: World, v: World)
    requires OwnersAgree(w) && v.admissions == w.admissions && RequestsMove(w, v)
    requires v.link.approvalRequired == w.link.approvalRequired
    ensures OwnersAgree(v)
  {
    forall r | r in v.requests ensures r in v.admissions && v.requests[r].initial == v.admissions[r] {
      assert RequestMoves(w.requests[r], v.requests[r]);
    }
  }

  lemma KeepsWithSameConsumers(w: World, v: World)
    requires Good(w) && SameConsumers(w, v) && v.pointer == w.pointer
    requires RequestsMove(w, v)
    requires Bound(v) && VerdictsStand(v)
    ensures Good(v)
  {
    hide EveryoneBacked, OnlyLatestOpen, Bound, VerdictsStand, OwnersAgree, Consumers, RequestsMove;
    KeepsBacked(w, v);
    KeepsOnlyLatestOpen(w, v);
    KeepsOwnersAgree(w, v);
  }

  /** `v` follows from `w`: the invariant holds again and nothing is taken back. */
  ghost predicate Follows(w: World, v: World) {
    Good(v) && Extends(w, v)
  }

  lemma FollowsTransitive(u: World, v: World, w: World)
    requires Follows(u, v) && Follows(v, w)
    ensures Follows(u, w)
  {
    hide EveryoneBacked, OnlyLatestOpen, VerdictsStand, OwnersAgree, Counted, Bound, Extends;
    ExtendsTransitive(u, v, w);
  }

  ghost predicate Undecided(w: World, input: Admit) {
    && input.op !in w.ops && input.op !in w.handoffs
    && (input.op in w.attempts ==> w.attempts[input.op] == input)
  }

  lemma BoundAfterBinding(w: World, input: Admit, v: World)
    requires Bound(w) && Undecided(w, input)
    requires v == Bind(w, input)
    ensures Bound(v)
  {
  }

  lemma ExtendsAfterBinding(w: World, input: Admit, v: World)
    requires Undecided(w, input)
    requires v == Bind(w, input)
    ensures Extends(w, v)
  {
  }

  lemma BindingFollows(w: World, input: Admit, v: World)
    requires Good(w) && Undecided(w, input)
    requires v == Bind(w, input)
    ensures Follows(w, v) && Undecided(v, input) && input.op in v.attempts
  {
    hide EveryoneBacked, OnlyLatestOpen, OwnersAgree, Counted, Bound, VerdictsStand, Extends;
    ExtendsAfterBinding(w, input, v);
    BoundAfterBinding(w, input, v);
    VerdictsIgnore(w, v);
    KeepsWithSameConsumers(w, v);
  }

  lemma RequestMoveFollows(w: World, id: RequestId, r: Request, v: World)
    requires Good(w) && id in w.requests && RequestMoves(w.requests[id], r)
    requires v == w.(requests := w.requests[id := r])
    ensures Follows(w, v) && v.attempts == w.attempts
  {
    hide EveryoneBacked, OnlyLatestOpen, OwnersAgree, Counted, Bound;
    assert Bound(v) by {
      BoundIgnores(w, v);
    }
    KeepsWithSameConsumers(w, v);
  }

  lemma BoundIgnores(w: World, v: World)
    requires Bound(w)
    requires v.ops == w.ops && v.handoffs == w.handoffs && v.attempts == w.attempts && v.verdicts == w.verdicts
    ensures Bound(v)
  {
  }

  lemma StayingFollows(w: World)
    requires Good(w)
    ensures Follows(w, w)
  {
    hide EveryoneBacked, OnlyLatestOpen, VerdictsStand, OwnersAgree, Counted, Bound;
  }

  lemma RecordedVerdictFollows(w: World, id: RequestId, verdict: Verdict, v: World)
    requires Good(w) && id in w.requests
    requires verdict.attempt.op in w.attempts && w.attempts[verdict.attempt.op] == verdict.attempt
    requires (id, verdict.attempt.op) !in w.verdicts && verdict.blocking == Blocks(w.requests[id].state)
    requires v == w.(verdicts := w.verdicts[(id, verdict.attempt.op) := verdict])
    ensures Follows(w, v)
  {
    hide EveryoneBacked, OnlyLatestOpen, OwnersAgree, Counted, Bound, VerdictsStand, Extends;
    VerdictIsBound(w, id, verdict, v);
    VerdictStands(w, id, verdict, v);
    ExtendsAfterVerdict(w, id, verdict, v);
    KeepsWithSameConsumers(w, v);
  }

  lemma VerdictIsBound(w: World, id: RequestId, verdict: Verdict, v: World)
    requires Bound(w)
    requires verdict.attempt.op in w.attempts && w.attempts[verdict.attempt.op] == verdict.attempt
    requires (id, verdict.attempt.op) !in w.verdicts
    requires v == w.(verdicts := w.verdicts[(id, verdict.attempt.op) := verdict])
    ensures Bound(v)
  {
  }

  lemma VerdictStands(w: World, id: RequestId, verdict: Verdict, v: World)
    requires VerdictsStand(w) && id in w.requests && verdict.blocking == Blocks(w.requests[id].state)
    requires v == w.(verdicts := w.verdicts[(id, verdict.attempt.op) := verdict])
    ensures VerdictsStand(v)
  {
    forall k | k in v.verdicts && !v.verdicts[k].blocking ensures Finished(v, k.0) {
      assert k == (id, verdict.attempt.op) || Finished(w, k.0);
    }
  }

  lemma ExtendsAfterVerdict(w: World, id: RequestId, verdict: Verdict, v: World)
    requires (id, verdict.attempt.op) !in w.verdicts
    requires v == w.(verdicts := w.verdicts[(id, verdict.attempt.op) := verdict])
    ensures Extends(w, v)
  {
  }

  /** The owner of an initialised request answers every bound attempt of its requester; an answer that does not
    * block means the request is finished. */
  lemma VerdictFollows(w: World, id: RequestId, attempt: Admit, at: int)
    requires Good(w) && attempt.op in w.attempts && w.attempts[attempt.op] == attempt
    ensures var (v, verdict) := EligibilityVerdict(w, id, attempt, at);
            && Follows(w, v)
            && v.ops == w.ops && v.handoffs == w.handoffs && v.attempts == w.attempts
            && v.pointer == w.pointer && v.admissions == w.admissions && v.link == w.link
            && (verdict.Some? <==> id in w.requests && w.requests[id].initial.requester == attempt.requester)
            && (verdict.Some? && !verdict.value.blocking ==> Finished(v, id))
  {
    hide EveryoneBacked, OnlyLatestOpen, OwnersAgree, Counted, Extends, Follows;
    StayingFollows(w);
    if id in w.requests && w.requests[id].initial.requester == attempt.requester {
      if (id, attempt.op) in w.verdicts {
        assert w.verdicts[(id, attempt.op)].attempt == attempt;
      } else {
        FirstVerdictFollows(w, id, attempt, at);
      }
    }
  }

  lemma FirstVerdictFollows(w: World, id: RequestId, attempt: Admit, at: int)
    requires Good(w) && attempt.op in w.attempts && w.attempts[attempt.op] == attempt
    requires id in w.requests && w.requests[id].initial.requester == attempt.requester
    requires (id, attempt.op) !in w.verdicts
    ensures Follows(w, EligibilityVerdict(w, id, attempt, at).0)
  {
    hide EveryoneBacked, OnlyLatestOpen, OwnersAgree, Counted, Extends, Bound, VerdictsStand;
    var r := ExpireDue(w.requests[id], at);
    var expired := w.(requests := w.requests[id := r]);
    RequestMoveFollows(w, id, r, expired);
    var v := EligibilityVerdict(w, id, attempt, at).0;
    RecordedVerdictFollows(expired, id, Verdict(at, attempt, Blocks(r.state)), v);
    FollowsTransitive(w, expired, v);
  }

  // --- decisions ----------------------------------------------------------------

  lemma CountingKept(w: World, v: World)
    requires Counted(w) && Consumers(v) == Consumers(w)
    requires v.link == w.link && v.admissions == w.admissions
    ensures Counted(v)
  {
  }

  lemma BoundAfterRecord(w: World, input: Admit, receipt: Receipt)
    requires Bound(w) && input.op in w.attempts && w.attempts[input.op] == input
    ensures Bound(Record(w, input, receipt))
  {
  }

  lemma VerdictsIgnore(w: World, v: World)
    requires VerdictsStand(w) && v.verdicts == w.verdicts && v.requests == w.requests
    ensures VerdictsStand(v)
  {
    forall k | k in v.verdicts && !v.verdicts[k].blocking ensures Finished(v, k.0) {
      assert Finished(w, k.0);
    }
  }

  lemma ConsumersAfterRejection(w: World, input: Admit, receipt: Receipt)
    requires Undecided(w, input) && receipt.result.Rejected?
    ensures var v := Record(w, input, receipt);
            Consumers(v) == Consumers(w) && v.handoffs == w.handoffs && Extends(w, v)
  {
  }

  /** A rejection consumes nothing. */
  lemma RejectionFollows(w: World, input: Admit, receipt: Receipt)
    requires Good(w) && Undecided(w, input) && input.op in w.attempts && receipt.result.Rejected?
    ensures Follows(w, Record(w, input, receipt))
  {
    hide EveryoneBacked, OnlyLatestOpen, OwnersAgree, Counted, Bound, VerdictsStand, Extends, Consumers;
    var v := Record(w, input, receipt);
    ConsumersAfterRejection(w, input, receipt);
    CountingKept(w, v);
    BackedAfterRecord(w, input, receipt);
    BoundAfterRecord(w, input, receipt);
    VerdictsIgnore(w, v);
    LatestOpenIgnores(w, v);
    OwnersIgnore(w, v);
  }

  lemma BackedAfterRecord(w: World, input: Admit, receipt: Receipt)
    requires Bound(w) && EveryoneBacked(w) && Undecided(w, input) && receipt.result.Rejected?
    ensures EveryoneBacked(Record(w, input, receipt))
  {
    var v := Record(w, input, receipt);
    forall o | o in Consumers(v) ensures o in Consumers(w) && Backed(v, o) && RequestOf(v, o) == RequestOf(w, o) {
      assert Backed(w, o);
    }
  }

  lemma LatestOpenIgnores(w: World, v: World)
    requires OnlyLatestOpen(w) && v.admissions == w.admissions && v.pointer == w.pointer && v.requests == w.requests
    ensures OnlyLatestOpen(v)
  {
    forall r | r in v.admissions && Finished(w, r) ensures Finished(v, r) {
    }
  }

  lemma OwnersIgnore(w: World, v: World)
    requires OwnersAgree(w) && v.admissions == w.admissions && v.requests == w.requests && v.link == w.link
    ensures OwnersAgree(v)
  {
  }

  lemma ConsumersAfterReceipt(w: World, o: OperationId, v: World)
    requires Bound(w) && EveryoneBacked(w) && o in w.handoffs
    requires v == Record(w, w.handoffs[o].record.input, w.handoffs[o].record.receipt)
    ensures Consumers(v) == Consumers(w)
    ensures v.ops == w.ops[o := w.handoffs[o].record] && v.handoffs == w.handoffs - {o}
  {
    hide EveryoneBacked, Bound;
    HandOffIsBound(w, o);
  }

  lemma ExtendsAfterReceipt(w: World, o: OperationId, v: World)
    requires Bound(w) && o in w.handoffs
    requires v == w.(ops := w.ops[o := w.handoffs[o].record], handoffs := w.handoffs - {o})
    ensures Extends(w, v)
  {
  }

  /** The acknowledgement of a retained decision moves it, unchanged, into the receipts. */
  lemma ReceiptFollows(w: World, o: OperationId, v: World)
    requires Good(w) && o in w.handoffs && w.handoffs[o].initialization.requestId in w.requests
    requires v == Record(w, w.handoffs[o].record.input, w.handoffs[o].record.receipt)
    ensures Follows(w, v) && v.ops == w.ops[o := w.handoffs[o].record] && v.handoffs == w.handoffs - {o}
  {
    hide EveryoneBacked, OnlyLatestOpen, OwnersAgree, Counted, Bound, VerdictsStand, Extends, Consumers;
    ConsumersAfterReceipt(w, o, v);
    ExtendsAfterReceipt(w, o, v);
    CountingKept(w, v);
    BackedAfterReceipt(w, o, v);
    HandOffIsBound(w, o);
    BoundAfterRecord(w, w.handoffs[o].record.input, w.handoffs[o].record.receipt);
    VerdictsIgnore(w, v);
    LatestOpenIgnores(w, v);
    OwnersIgnore(w, v);
  }

  lemma HandOffIsBound(w: World, o: OperationId)
    requires Bound(w) && EveryoneBacked(w) && o in w.handoffs
    ensures w.handoffs[o].record.input.op == o && o in w.attempts && w.attempts[o] == w.handoffs[o].record.input
    ensures var init := w.handoffs[o].initialization;
            init.requestId in w.admissions && w.admissions[init.requestId] == init
            && init.requester == w.handoffs[o].record.input.requester
            && w.handoffs[o].record.receipt == AcceptedReceipt(init)
  {
    assert o in Consumers(w) && Backed(w, o);
  }

  lemma BackedAfterReceipt(w: World, o: OperationId, v: World)
    requires Bound(w) && EveryoneBacked(w) && o in w.handoffs
    requires w.handoffs[o].initialization.requestId in w.requests
    requires v == Record(w, w.handoffs[o].record.input, w.handoffs[o].record.receipt)
    ensures EveryoneBacked(v)
  {
    assert w.handoffs[o].record.input.op == o;
    forall p | p in Consumers(v) ensures p in Consumers(w) && Backed(v, p) && RequestOf(v, p) == RequestOf(w, p) {
      assert o in Consumers(w) && Backed(w, o);
      assert p == o || p in Consumers(w);
      assert Backed(w, p);
    }
  }

  /** An admitted request is held by its owner once asked, and its owner never finds the context conflicting. */
  lemma InitializeFollows(w: World, r: RequestId)
    requires Good(w) && r in w.admissions
    ensures var (v, ok) := Initialize(w, w.admissions[r]);
            Follows(w, v) && ok && v == w.(requests := v.requests) && r in v.requests
  {
    hide EveryoneBacked, OnlyLatestOpen, OwnersAgree, Counted, Bound, VerdictsStand, Extends, Consumers;
    AdmittedUnderItsIdentity(w, r);
    var init := w.admissions[r];
    var v := Initialize(w, init).0;
    if r in w.requests {
      StayingFollows(w);
      HeldAsAdmitted(w, r);
    } else {
      ConsumersIgnoreRequests(w, v);
      CountingKept(w, v);
      BackedWithMoreRequests(w, v);
      LatestOpenWithMoreRequests(w, v);
      OwnersAfterInitialize(w, init);
      BoundIgnores(w, v);
      VerdictsWithMoreRequests(w, v);
    }
  }

  lemma AdmittedUnderItsIdentity(w: World, r: RequestId)
    requires OwnersAgree(w) && r in w.admissions
    ensures w.admissions[r].requestId == r
  {
  }

  lemma HeldAsAdmitted(w: World, r: RequestId)
    requires OwnersAgree(w) && r in w.requests
    ensures r in w.admissions && w.requests[r].initial == w.admissions[r]
  {
  }

  lemma OwnersAfterInitialize(w: World, init: Initialization)
    requires OwnersAgree(w) && init.requestId in w.admissions && w.admissions[init.requestId] == init
    ensures OwnersAgree(Initialize(w, init).0)
  {
  }

  lemma ConsumersIgnoreRequests(w: World, v: World)
    requires MoreRequests(w, v)
    ensures Consumers(v) == Consumers(w) && Extends(w, v)
  {
  }

  lemma VerdictsWithMoreRequests(w: World, v: World)
    requires VerdictsStand(w) && MoreRequests(w, v)
    ensures VerdictsStand(v)
  {
    forall k | k in v.verdicts && !v.verdicts[k].blocking ensures Finished(v, k.0) {
      assert Finished(w, k.0);
    }
  }

  ghost predicate MoreRequests(w: World, v: World) {
    && v == w.(requests := v.requests)
    && (forall r :: r in w.requests ==> r in v.requests && v.requests[r] == w.requests[r])
  }

  lemma BackedWithMoreRequests(w: World, v: World)
    requires EveryoneBacked(w) && MoreRequests(w, v)
    ensures EveryoneBacked(v)
  {
    forall o | o in Consumers(v) ensures o in Consumers(w) && Backed(v, o) && RequestOf(v, o) == RequestOf(w, o) {
      assert Backed(w, o);
    }
  }

  lemma LatestOpenWithMoreRequests(w: World, v: World)
    requires OnlyLatestOpen(w) && MoreRequests(w, v)
    ensures OnlyLatestOpen(v)
  {
    forall r | r in v.admissions && Finished(w, r) ensures Finished(v, r) {
    }
  }

  /** Writing the link with one use more, before anything is admitted. */
  lemma SpendFollows(w: World)
    requires Good(w) && (w.link.maxUses.Some? ==> w.link.uses < w.link.maxUses.value)
    ensures Follows(w, Spend(w)) && |Spend(w).admissions| < Spend(w).link.uses
  {
    LinkChangeFollows(w, Spend(w).link);
  }

  /** Retaining the decision: the requester's earlier request must be finished and the identity new. */
  lemma RetainDecisionFollows(w: World, input: Admit, init: Initialization)
    requires Good(w) && Undecided(w, input) && input.op in w.attempts
    requires |w.admissions| < w.link.uses
    requires init.requestId !in w.admissions
    requires init.requester == input.requester && init.justification == input.justification && Policy(w.link, init)
    requires input.requester in w.pointer ==> Finished(w, w.pointer[input.requester])
    ensures Follows(w, RetainDecision(w, input, init))
  {
    hide EveryoneBacked, OnlyLatestOpen, OwnersAgree, Counted, Bound, VerdictsStand, Extends, Consumers, Policy, RetainDecision;
    BoundAfterDecision(w, input, init);
    BackedAfterDecision(w, input, init);
    CountedAfterDecision(w, input, init);
    ExtendsAfterDecision(w, input, init);
    OwnersAfterDecision(w, input, init);
    LatestOpenAfterDecision(w, input, init);
    VerdictsAfterDecision(w, input, init);
  }

  lemma BoundAfterDecision(w: World, input: Admit, init: Initialization)
    requires Bound(w) && Undecided(w, input) && input.op in w.attempts
    ensures Bound(RetainDecision(w, input, init))
  {
  }

  lemma ExtendsAfterDecision(w: World, input: Admit, init: Initialization)
    requires Undecided(w, input) && init.requestId !in w.admissions
    ensures Extends(w, RetainDecision(w, input, init))
  {
  }

  lemma ConsumersAfterDecision(w: World, input: Admit, init: Initialization)
    requires input.op !in w.ops && input.op !in w.handoffs
    ensures input.op !in Consumers(w) && Consumers(RetainDecision(w, input, init)) == Consumers(w) + {input.op}
  {
  }

  lemma OneMore<K, V>(m: map<K, V>, k: K, v: V)
    requires k !in m
    ensures |m[k := v]| == |m| + 1
  {
    assert m[k := v].Keys == m.Keys + {k};
  }

  /** Exactly one consumer and one admission more. */
  lemma CountedAfterDecision(w: World, input: Admit, init: Initialization)
    requires Counted(w) && Undecided(w, input) && init.requestId !in w.admissions
    requires |w.admissions| < w.link.uses
    ensures Counted(RetainDecision(w, input, init))
  {
    hide Consumers, Undecided;
    UndecidedMeans(w, input);
    ConsumersAfterDecision(w, input, init);
    OneMore(w.admissions, init.requestId, init);
  }

  lemma VerdictsAfterDecision(w: World, input: Admit, init: Initialization)
    requires VerdictsStand(w)
    ensures VerdictsStand(RetainDecision(w, input, init))
  {
    VerdictsIgnore(w, RetainDecision(w, input, init));
  }

  lemma BackedAfterDecision(w: World, input: Admit, init: Initialization)
    requires EveryoneBacked(w) && input.op !in w.ops && input.op !in w.handoffs
    requires init.requestId !in w.admissions
    requires init.requester == input.requester && init.justification == input.justification
    ensures EveryoneBacked(RetainDecision(w, input, init))
  {
    hide Backed, Consumers;
    var v := RetainDecision(w, input, init);
    ConsumersAfterDecision(w, input, init);
    forall o | o in Consumers(v)
      ensures Backed(v, o)
      ensures o != input.op ==> RequestOf(v, o) == RequestOf(w, o) && RequestOf(w, o) in w.admissions
    {
      BackedOne(w, input, init, o);
    }
  }

  lemma BackedOne(w: World, input: Admit, init: Initialization, o: OperationId)
    requires input.op !in w.ops && input.op !in w.handoffs && init.requestId !in w.admissions
    requires init.requester == input.requester && init.justification == input.justification
    requires o in Consumers(RetainDecision(w, input, init))
    requires o != input.op ==> o in Consumers(w) && Backed(w, o)
    ensures Backed(RetainDecision(w, input, init), o)
    ensures o != input.op ==>
      RequestOf(RetainDecision(w, input, init), o) == RequestOf(w, o) && RequestOf(w, o) in w.admissions
    ensures o == input.op ==> RequestOf(RetainDecision(w, input, init), o) == init.requestId
  {
  }

  lemma OwnersAfterDecision(w: World, input: Admit, init: Initialization)
    requires OwnersAgree(w) && init.requestId !in w.admissions && Policy(w.link, init)
    ensures OwnersAgree(RetainDecision(w, input, init))
  {
  }

  lemma LatestOpenAfterDecision(w: World, input: Admit, init: Initialization)
    requires OnlyLatestOpen(w) && init.requestId !in w.admissions && init.requester == input.requester
    requires input.requester in w.pointer ==> Finished(w, w.pointer[input.requester])
    ensures OnlyLatestOpen(RetainDecision(w, input, init))
  {
    var v := RetainDecision(w, input, init);
    forall r | r in v.admissions && r != init.requestId
      ensures v.admissions[r].requester in v.pointer
      ensures v.pointer[v.admissions[r].requester] == r || Finished(v, r)
    {
      assert r in w.admissions;
      assert Finished(w, r) ==> Finished(v, r);
    }
  }

  // --- every step ---------------------------------------------------------------

  /** A retained hand-off is completed exactly when its owner answers, whose answer is never a conflict. */
  lemma HandOffFollows(w: World, o: OperationId, reach: Reach)
    requires Good(w) && o in w.handoffs
    ensures var h := w.handoffs[o]; var out := HandOff(w, h.record.input, h, reach);
            && Follows(w, out.world)
            && out.world.link == w.link && out.world.admissions == w.admissions
            && out.answer == (if reach == Answered then Ok(h.record.receipt) else Err(Uncertain))
            && out.world.ops == (if reach == Answered then w.ops[o := h.record] else w.ops)
            && out.world.handoffs == (if reach == Answered then w.handoffs - {o} else w.handoffs)
  {
    hide EveryoneBacked, OnlyLatestOpen, OwnersAgree, Counted, Bound, VerdictsStand, Extends, Consumers, Initialize;
    StayingFollows(w);
    HandOffIsBound(w, o);
    InitializeFollows(w, w.handoffs[o].initialization.requestId);
    if reach == Answered {
      var called := Initialize(w, w.handoffs[o].initialization).0;
      ReceiptFollows(called, o, Record(called, w.handoffs[o].record.input, w.handoffs[o].record.receipt));
      FollowsTransitive(w, called, Record(called, w.handoffs[o].record.input, w.handoffs[o].record.receipt));
    }
  }

  /** When the admission is decided in favour, at `env.decidedAt`. */
  ghost predicate Admits(l: Link, env: Env) {
    && (InactiveAt(l, env.checkedAt).None? ==> env.evidence.Some?)
    && Judge(l, if InactiveAt(l, env.checkedAt).None? then env.evidence else None, env.decidedAt) == Accept
    && l.uses < U64_MAX
  }

  /** At most one use is consumed, only by an admission decided in favour, and for one admission if that is sent. */
  ghost predicate Spends(w: World, env: Env, v: World) {
    || (v.link.uses == w.link.uses && |v.admissions| == |w.admissions|)
    || (&& v.link.uses == w.link.uses + 1 && Admits(w.link, env)
        && |v.admissions| == |w.admissions| + (if env.projected then 1 else 0))
  }

  lemma DecideFollows(w: World, input: Admit, env: Env)
    requires Good(w) && Undecided(w, input) && input.op in w.attempts
    requires env.freshId !in w.admissions
    requires input.requester in w.pointer ==> Finished(w, w.pointer[input.requester])
    ensures var out := DecideAdmission(w, input, env);
            && Follows(w, out.world)
            && out.world.link.uses == w.link.uses + (if Admits(w.link, env) then 1 else 0)
            && Spends(w, env, out.world)
  {
    hide EveryoneBacked, OnlyLatestOpen, OwnersAgree, Counted, Bound, VerdictsStand, Extends, Consumers, HandOff,
      RetainDecision, Follows, WithinLimit, Admits, DecideAdmission, Record, Initial, Policy;
    StayingFollows(w);
    DecisionIs(w, input, env);
    if Admits(w.link, env) {
      AcceptedFollows(w, input, Initial(w.link, input, env), env);
    } else {
      RejectedFollows(w, input, env);
    }
  }

  /** The three endings of a decision. */
  lemma DecisionIs(w: World, input: Admit, env: Env)
    ensures var out := DecideAdmission(w, input, env);
            var init := Initial(w.link, input, env);
            var retained := RetainDecision(Spend(w), input, init);
            if !Admits(w.link, env) then
              out.world == w || (exists receipt: Receipt :: receipt.result.Rejected? && out.world == Record(w, input, receipt))
            else if !env.projected then out.world == Spend(w)
            else out == HandOff(retained, input, retained.handoffs[input.op], env.initializeCall)
    ensures var init := Initial(w.link, input, env);
            init.requestId == env.freshId && init.requester == input.requester
            && init.justification == input.justification && Policy(w.link, init)
    ensures Admits(w.link, env) && w.link.maxUses.Some? ==> w.link.uses < w.link.maxUses.value
  {
    hide HandOff, Record, RetainDecision;
    var check := InactiveAt(w.link, env.checkedAt).None?;
    if !(check && env.evidence.None?) {
      var judgement := Judge(w.link, if check then env.evidence else None, env.decidedAt);
      if judgement.Refuse? {
        var receipt := Receipt(env.decidedAt, Rejected(judgement.why));
        assert receipt.result.Rejected? && DecideAdmission(w, input, env).world == Record(w, input, receipt);
      }
    }
  }

  lemma RejectedFollows(w: World, input: Admit, env: Env)
    requires Good(w) && Undecided(w, input) && input.op in w.attempts && !Admits(w.link, env)
    ensures var v := DecideAdmission(w, input, env).world;
            Follows(w, v) && v.link == w.link && v.admissions == w.admissions
  {
    hide Good, Follows, DecideAdmission, Admits, Undecided;
    DecisionIs(w, input, env);
    StayingFollows(w);
    var v := DecideAdmission(w, input, env).world;
    if v != w {
      var receipt: Receipt :| receipt.result.Rejected? && v == Record(w, input, receipt);
      RejectionFollows(w, input, receipt);
    }
  }

  lemma AcceptedFollows(w: World, input: Admit, init: Initialization, env: Env)
    requires Good(w) && Undecided(w, input) && input.op in w.attempts
    requires w.link.maxUses.Some? ==> w.link.uses < w.link.maxUses.value
    requires init.requestId !in w.admissions
    requires init.requester == input.requester && init.justification == input.justification && Policy(w.link, init)
    requires input.requester in w.pointer ==> Finished(w, w.pointer[input.requester])
    ensures Follows(w, Spend(w))
    ensures var retained := RetainDecision(Spend(w), input, init);
            var out := HandOff(retained, input, retained.handoffs[input.op], env.initializeCall);
            && Follows(w, out.world)
            && out.world.link == Spend(w).link && |out.world.admissions| == |w.admissions| + 1
  {
    hide EveryoneBacked, OnlyLatestOpen, OwnersAgree, Counted, Bound, VerdictsStand, Extends, Consumers, HandOff,
      RetainDecision, Follows, Policy, WithinLimit;
    var spent := Spend(w);
    SpendFollows(w);
    FollowsIsGood(w, spent);
    PolicyOfSpent(w, init);
    FinishedStill(w, spent, input.requester);
    RetainDecisionFollows(spent, input, init);
    DecisionKept(spent, input, init);
    var retained := RetainDecision(spent, input, init);
    FollowsIsGood(spent, retained);
    HandOffFollows(retained, input.op, env.initializeCall);
    var end := HandOff(retained, input, retained.handoffs[input.op], env.initializeCall).world;
    FollowsTransitive(w, spent, retained);
    FollowsTransitive(w, retained, end);
  }

  lemma PolicyOfSpent(w: World, init: Initialization)
    requires Policy(w.link, init)
    ensures Policy(Spend(w).link, init)
  {
  }

  lemma FinishedStill(w: World, v: World, q: UserId)
    requires v.requests == w.requests && v.pointer == w.pointer
    requires q in w.pointer ==> Finished(w, w.pointer[q])
    ensures q in v.pointer ==> Finished(v, v.pointer[q])
  {
  }

  lemma DecisionKept(w: World, input: Admit, init: Initialization)
    requires init.requestId !in w.admissions
    ensures var v := RetainDecision(w, input, init);
            && v.link == w.link && |v.admissions| == |w.admissions| + 1 && input.op in v.handoffs
            && v.handoffs[input.op] == Handoff(OperationRecord(input, AcceptedReceipt(init)), init)
  {
    OneMore(w.admissions, init.requestId, init);
  }

  lemma CallEligibilityFollows(w: World, id: RequestId, attempt: Admit, env: Env)
    requires Good(w) && attempt.op in w.attempts && w.attempts[attempt.op] == attempt
    ensures var (v, verdict) := CallEligibility(w, id, attempt, env);
            && Follows(w, v)
            && v.ops == w.ops && v.handoffs == w.handoffs && v.attempts == w.attempts
            && v.pointer == w.pointer && v.admissions == w.admissions && v.link == w.link
            && (verdict.Some? <==>
                  env.eligibilityCall == Answered
                  && id in w.requests && w.requests[id].initial.requester == attempt.requester)
            && (verdict.Some? && !verdict.value.blocking ==> Finished(v, id))
  {
    hide EveryoneBacked, OnlyLatestOpen, OwnersAgree, Counted, Bound, VerdictsStand, Extends, EligibilityVerdict, Follows,
      RequestMoves, ExpireDue;
    StayingFollows(w);
    VerdictFollows(w, id, attempt, env.verdictAt);
    TickFollows(w, id, env.verdictAt);
  }

  lemma CheckExistingFollows(w: World, input: Admit, env: Env)
    requires Good(w) && Undecided(w, input) && input.op in w.attempts && env.freshId !in w.admissions
    ensures Follows(w, CheckExisting(w, input, env).world)
    ensures Spends(w, env, CheckExisting(w, input, env).world)
  {
    hide EveryoneBacked, OnlyLatestOpen, OwnersAgree, Counted, Bound, VerdictsStand, Extends, CallEligibility,
      DecideAdmission, Admits;
    if input.requester !in w.pointer {
      DecideFollows(w, input, env);
    } else {
      CallEligibilityFollows(w, w.pointer[input.requester], input, env);
      var (asked, verdict) := CallEligibility(w, w.pointer[input.requester], input, env);
      if verdict.Some? {
        var out := CheckExisting(w, input, env);
        if verdict.value.blocking {
          RejectionFollows(asked, input, Receipt(verdict.value.at, Rejected(ExistingRequest)));
        } else {
          DecideFollows(asked, input, env);
        }
        FollowsTransitive(w, asked, out.world);
      }
    }
  }

  lemma AdmitInputFollows(w: World, input: Admit, env: Env)
    requires Good(w) && env.freshId !in w.admissions
    ensures Follows(w, AdmitInput(w, input, env).world)
    ensures Spends(w, env, AdmitInput(w, input, env).world)
  {
    hide EveryoneBacked, OnlyLatestOpen, OwnersAgree, Counted, Bound, VerdictsStand, Extends, CheckExisting, HandOff;
    StayingFollows(w);
    if input.op in w.ops {
    } else if input.op in w.handoffs {
      HandOffFollows(w, input.op, env.initializeCall);
    } else if !(input.op in w.attempts && w.attempts[input.op] != input) {
      var bound := Bind(w, input);
      BindingFollows(w, input, bound);
      CheckExistingFollows(bound, input, env);
      FollowsTransitive(w, bound, CheckExisting(bound, input, env).world);
    }
  }

  lemma DecisionMoves(r: Request, approve: bool, at: int)
    ensures RequestMoves(r, DecideRequest(r, approve, at)) && RequestMoves(r, ExpireDue(r, at))
  {
  }

  lemma TickFollows(w: World, id: RequestId, at: int)
    requires Good(w)
    ensures Follows(w, Tick(w, id, at)) && Tick(w, id, at) == w.(requests := Tick(w, id, at).requests)
  {
    hide Good, Follows, RequestMoves, ExpireDue;
    StayingFollows(w);
    if id in w.requests {
      DecisionMoves(w.requests[id], true, at);
      RequestMoveFollows(w, id, ExpireDue(w.requests[id], at), Tick(w, id, at));
    }
  }

  /** A change of the link that leaves its guardrails and keeps within its limit. */
  lemma LinkChangeFollows(w: World, l: Link)
    requires Good(w) && LinkMoves(w.link, l) && (l.uses == w.link.uses || WithinLimit(l))
    ensures Follows(w, w.(link := l))
  {
    hide EveryoneBacked, OnlyLatestOpen, OwnersAgree, Counted, Bound, VerdictsStand;
    var v := w.(link := l);
    BoundIgnores(w, v);
    VerdictsIgnore(w, v);
    KeepsWithSameConsumers(w, v);
  }

  lemma PreparingFollows(w: World, raw: Admit)
    requires Good(w)
    ensures Follows(w, PrepareOutcome(w, raw))
  {
    hide EveryoneBacked, OnlyLatestOpen, OwnersAgree, Counted, VerdictsStand, Extends, Normalize;
    StayingFollows(w);
    var normal := Normalize(raw);
    if normal.Ok? && normal.value.op !in w.ops && normal.value.op !in w.attempts {
      var input := normal.value;
      assert input.op !in w.handoffs;
      BindingFollows(w, input, Bind(w, input));
    }
  }

  /** Every step, whatever the calls it makes do, keeps the invariant and takes nothing back. */
  lemma StepFollows(w: World, a: Action)
    requires Good(w) && FreshFor(w, a)
    ensures Follows(w, Step(w, a))
    ensures if a.Admitting? then Spends(w, a.env, Step(w, a))
            else Step(w, a).link.uses == w.link.uses && Step(w, a).admissions == w.admissions
  {
    hide Follows, Good, Spends, AdmitOutcome, PrepareOutcome;
    match a
    case Admitting(raw, env) =>
      AdmittingFollows(w, raw, env);
    case Preparing(raw) =>
      PreparingFollows(w, raw);
      PreparingKeepsRequests(w, raw);
    case Revoking(_) =>
      LinkStepFollows(w, a);
    case EditingMetadata =>
      LinkStepFollows(w, a);
    case _ =>
      OwnerStepFollows(w, a);
  }

  lemma LinkStepFollows(w: World, a: Action)
    requires Good(w) && (a.Revoking? || a.EditingMetadata?)
    ensures Follows(w, Step(w, a)) && Step(w, a).link.uses == w.link.uses && Step(w, a).admissions == w.admissions
  {
    hide Follows, Good, WithinLimit, AdmitOutcome, PrepareOutcome, DecideRequest, Tick, Initialize, EligibilityVerdict;
    if a.Revoking? && w.link.revokedAt.Some? {
      StayingFollows(w);
    } else if a.Revoking? {
      LinkChangeFollows(w, w.link.(revokedAt := Some(a.at), revision := w.link.revision + 1));
    } else {
      LinkChangeFollows(w, w.link.(revision := w.link.revision + 1));
    }
  }

  /** A step of a request owner alone: nothing of the link object changes. */
  predicate OfOwner(a: Action) {
    a.Deciding? || a.Ticking? || a.InitializingLate? || a.JudgingLate?
  }

  lemma OwnerStepFollows(w: World, a: Action)
    requires Good(w) && OfOwner(a)
    ensures Follows(w, Step(w, a)) && Step(w, a).link == w.link && Step(w, a).admissions == w.admissions
  {
    hide Follows, Good, ExpireDue, DecideRequest, RequestMoves, Initialize, EligibilityVerdict, Tick;
    StayingFollows(w);
    match a
    case Deciding(id, approve, at) =>
      if id in w.requests {
        DecisionMoves(w.requests[id], approve, at);
        RequestMoveFollows(w, id, DecideRequest(w.requests[id], approve, at), Step(w, a));
      }
    case Ticking(id, at) =>
      TickFollows(w, id, at);
    case InitializingLate(id) =>
      if id in w.admissions {
        InitializeFollows(w, id);
      }
    case JudgingLate(id, op, at) =>
      if op in w.attempts {
        BoundAttempt(w, op);
        VerdictFollows(w, id, w.attempts[op], at);
      }
  }

  lemma AdmittingFollows(w: World, raw: Admit, env: Env)
    requires Good(w) && env.freshId !in w.admissions
    ensures Follows(w, AdmitOutcome(w, raw, env).world) && Spends(w, env, AdmitOutcome(w, raw, env).world)
  {
    hide Follows, Good, AdmitInput, Normalize, Admits;
    StayingFollows(w);
    if raw.requester != 0 && Normalize(raw).Ok? {
      AdmitInputFollows(w, Normalize(raw).value, env);
    }
  }

  lemma BoundAttempt(w: World, o: OperationId)
    requires Good(w) && o in w.attempts
    ensures w.attempts[o].op == o
  {
  }

  // --- every run ----------------------------------------------------------------

  lemma CreatedIsGood(w: World)
    requires Created(w)
    ensures Good(w)
  {
    assert Consumers(w) == {};
  }

  lemma FreshPrefix(w: World, actions: seq<Action>, n: nat)
    requires FreshRun(w, actions) && n <= |actions|
    ensures FreshRun(w, actions[..n])
    decreases |actions|
  {
    var last := |actions| - 1;
    if n == |actions| {
      assert actions[..n] == actions;
    } else {
      FreshPrefix(w, actions[..last], n);
      assert actions[..last][..n] == actions[..n];
    }
  }

  /** From any moment of a run on, the rest of the run follows. */
  lemma {:induction false} LaterFollows(w: World, actions: seq<Action>, n: nat)
    requires Good(w) && FreshRun(w, actions) && n <= |actions|
    ensures Follows(Run(w, actions[..n]), Run(w, actions))
    decreases |actions|
  {
    hide Good, Follows, Step, FreshFor;
    if actions == [] {
      StayingFollows(w);
      assert actions[..n] == actions;
    } else {
      var last := |actions| - 1;
      var before := Run(w, actions[..last]);
      LaterFollows(w, actions[..last], last);
      assert actions[..last][..last] == actions[..last];
      assert Good(before) by {
        FollowsIsGood(before, before);
      }
      StepFollows(before, actions[last]);
      if n == |actions| {
        assert actions[..n] == actions;
        FollowsIsGood(before, Run(w, actions));
        StayingFollows(Run(w, actions));
      } else {
        LaterFollows(w, actions[..last], n);
        assert actions[..last][..n] == actions[..n];
        FollowsTransitive(Run(w, actions[..n]), before, Run(w, actions));
      }
    }
  }

  lemma FollowsIsGood(w: World, v: World)
    requires Follows(w, v)
    ensures Good(v) && Extends(w, v)
  {
    hide Good, Extends;
  }

  /** The invariant holds after every run of a link just created. */
  lemma RunsAreGood(w: World, actions: seq<Action>)
    requires Created(w) && FreshRun(w, actions)
    ensures Good(Run(w, actions))
  {
    hide Good, Follows, Created;
    CreatedIsGood(w);
    LaterFollows(w, actions, |actions|);
    assert actions[..|actions|] == actions;
    FollowsIsGood(Run(w, actions), Run(w, actions));
  }

  /** The operation was answered with an acceptance. */
  ghost predicate AcceptedIn(w: World, o: OperationId) {
    o in w.ops && w.ops[o].receipt.result.Accepted?
  }

  ghost function AcceptedOps(w: World): set<OperationId> {
    set o | o in w.ops && AcceptedIn(w, o)
  }

  /** The step consumed a use, and then failed to send the link to its projection. */
  ghost predicate Loses(w: World, a: Action) {
    a.Admitting? && !a.env.projected && Step(w, a).link.uses != w.link.uses
  }

  /** How many steps of the run did. */
  ghost function Lost(w: World, actions: seq<Action>): nat
    decreases |actions|
  {
    if actions == [] then 0
    else
      Lost(w, actions[..|actions| - 1])
      + if Loses(Run(w, actions[..|actions| - 1]), actions[|actions| - 1]) then 1 else 0
  }

  lemma {:induction false} UsesWithLost(w: World, actions: seq<Action>)
    requires Created(w) && FreshRun(w, actions)
    ensures Run(w, actions).link.uses == |Run(w, actions).admissions| + Lost(w, actions)
    decreases |actions|
  {
    hide Created, Good, Step, FreshFor, Follows;
    if actions == [] {
      NothingAdmitted(w);
    } else {
      var last := |actions| - 1;
      UsesWithLost(w, actions[..last]);
      RunsAreGood(w, actions[..last]);
      StepFollows(Run(w, actions[..last]), actions[last]);
    }
  }

  lemma NothingAdmitted(w: World)
    requires Created(w)
    ensures w.link.uses == 0 && w.admissions == map[]
  {
  }

  lemma {:induction false} NoneLost(w: World, actions: seq<Action>)
    ensures Lost(w, actions) == 0 <==>
      forall k :: 0 <= k < |actions| ==> !Loses(Run(w, actions[..k]), actions[k])
    decreases |actions|
  {
    hide Loses, Run;
    if actions != [] {
      var last := |actions| - 1;
      NoneLost(w, actions[..last]);
      forall k | 0 <= k < last ensures actions[..last][..k] == actions[..k] {
      }
    }
  }

  /** After every run the uses are exactly the requests admitted, and exactly the accepted operations, acknowledged
    * or not, together with the uses lost to a failed send; so they agree if and only if no such send failed. They
    * never pass the limit, and no two accepted receipts name the same request. */
  lemma {:induction false} UsesAreAccountedFor(w: World, actions: seq<Action>)
    requires Created(w) && FreshRun(w, actions)
    ensures var v := Run(w, actions);
            && v.link.maxUses == w.link.maxUses
            && v.link.uses == |v.admissions| + Lost(w, actions)
            && |v.admissions| == |AcceptedOps(v)| + |v.handoffs|
            && (v.link.uses == |v.admissions| <==>
                  forall k :: 0 <= k < |actions| ==> !Loses(Run(w, actions[..k]), actions[k]))
            && (v.link.maxUses.Some? ==> v.link.uses <= v.link.maxUses.value)
            && (forall o, p | AcceptedIn(v, o) && AcceptedIn(v, p) ::
                  v.ops[o].receipt.result.requestId == v.ops[p].receipt.result.requestId ==> o == p)
  {
    hide Created, OwnersAgree, OnlyLatestOpen, VerdictsStand, AcceptedOps, Run, FreshRun, Loses, Lost;
    var v := Run(w, actions);
    CreatedIsGood(w);
    RunsAreGood(w, actions);
    RunKeepsLink(w, actions);
    ConsumersSplit(v);
    UsesWithLost(w, actions);
    NoneLost(w, actions);
    forall o, p | AcceptedIn(v, o) && AcceptedIn(v, p)
                  && v.ops[o].receipt.result.requestId == v.ops[p].receipt.result.requestId
      ensures o == p
    {
      assert RequestOf(v, o) == RequestOf(v, p);
    }
  }

  /** The loss is real: the only use of a link goes to nobody, and the same operation, retried, finds it used up. */
  lemma FailedSendLosesTheUse(w: World, env: Env, again: Env)
    requires Created(w) && w.link == Link(Some(1), None, true, 0, 1, None)
    requires env == Env(Undelivered, 0, 9, Some(Evidence(Available, 20)), 9, 7, false, Answered)
    ensures var raw := Admit(1, 2, None);
            var lost := AdmitOutcome(w, raw, env);
            && lost.answer == Err(Unsent) && lost.world.link.uses == 1
            && lost.world.admissions == map[] && lost.world.handoffs == map[] && lost.world.ops == map[]
            && AdmitOutcome(lost.world, raw, again).answer == Ok(Receipt(again.decidedAt, Rejected(Inactive(I.Exhausted))))
  {
    var raw := Admit(1, 2, None);
    assert Judge(w.link, env.evidence, 9) == Accept;
    var lost := AdmitOutcome(w, raw, env).world;
    assert lost.link.uses == 1 && InactiveAt(lost.link, again.checkedAt) == Some(I.Exhausted);
  }

  lemma {:induction false} RunKeepsLink(w: World, actions: seq<Action>)
    requires Created(w) && FreshRun(w, actions)
    ensures LinkMoves(w.link, Run(w, actions).link)
  {
    hide Good;
    CreatedIsGood(w);
    LaterFollows(w, actions, 0);
    assert actions[..0] == [];
  }

  lemma SizeOfUnion<K, V>(s: set<K>, m: map<K, V>)
    requires s !! m.Keys
    ensures |s + m.Keys| == |s| + |m|
  {
    assert |m| == |m.Keys|;
  }

  lemma ConsumersAreBoth(v: World)
    requires Bound(v)
    ensures Consumers(v) == AcceptedOps(v) + v.handoffs.Keys
    ensures AcceptedOps(v) !! v.handoffs.Keys
  {
  }

  lemma ConsumersSplit(v: World)
    requires Bound(v)
    ensures |Consumers(v)| == |AcceptedOps(v)| + |v.handoffs|
  {
    hide AcceptedOps, Consumers, Bound;
    ConsumersAreBoth(v);
    SizeOfUnion(AcceptedOps(v), v.handoffs);
  }

  /** An accepted receipt is never given before its request is held by its owner, with the requester and
    * justification of the operation, and with the seven-day deadline exactly when approval is required. */
  lemma {:induction false} AcceptedIsInitialized(w: World, actions: seq<Action>, o: OperationId)
    requires Created(w) && FreshRun(w, actions)
    requires AcceptedIn(Run(w, actions), o)
    ensures var v := Run(w, actions);
            var record := v.ops[o];
            var id := record.receipt.result.requestId;
            && id in v.requests
            && v.requests[id].initial == Initialization(
                 id, record.input.requester, record.input.justification,
                 if w.link.approvalRequired then Pending else Approved, record.receipt.decidedAt,
                 if w.link.approvalRequired then Some(record.receipt.decidedAt + PENDING_LIFETIME) else None)
            && record.receipt.result.state == v.requests[id].initial.state
            && record.receipt.result.deadline == v.requests[id].initial.deadline
  {
    hide Created, OnlyLatestOpen, VerdictsStand, Counted, Run, FreshRun;
    var v := Run(w, actions);
    RunsAreGood(w, actions);
    RunKeepsLink(w, actions);
    assert o in Consumers(v) && Backed(v, o);
  }

  /** No requester ever has two requests that are pending or approved. */
  lemma {:induction false} OneLiveRequest(w: World, actions: seq<Action>, r: RequestId, s: RequestId)
    requires Created(w) && FreshRun(w, actions)
    requires var v := Run(w, actions);
             && r in v.requests && s in v.requests
             && v.requests[r].initial.requester == v.requests[s].initial.requester
             && Blocks(v.requests[r].state) && Blocks(v.requests[s].state)
    ensures r == s
  {
    hide Created, EveryoneBacked, Bound, VerdictsStand, Counted, Run, FreshRun;
    RunsAreGood(w, actions);
  }

  // --- retries ------------------------------------------------------------------

  /** An answered operation is recorded under its normalised input with the receipt that was given. */
  lemma AnswerIsRecorded(w: World, raw: Admit, env: Env)
    requires Good(w) && env.freshId !in w.admissions && AdmitOutcome(w, raw, env).answer.Ok?
    ensures Normalize(raw).Ok? && raw.op in AdmitOutcome(w, raw, env).world.ops
    ensures AdmitOutcome(w, raw, env).world.ops[raw.op]
         == OperationRecord(Normalize(raw).value, AdmitOutcome(w, raw, env).answer.value)
  {
    hide EveryoneBacked, OwnersAgree, OnlyLatestOpen, VerdictsStand, Counted, CheckExisting, HandOff, Normalize;
    KeepsOp(raw);
    if raw.requester != 0 && Normalize(raw).Ok? {
      var input := Normalize(raw).value;
      if input.op in w.ops {
      } else if input.op in w.handoffs {
        HandOffRecords(w, input, w.handoffs[input.op], env.initializeCall);
      } else {
        CheckRecords(Bind(w, input), input, env);
      }
    }
  }

  /** An answer, if there is one, is what has just been recorded. */
  ghost predicate Records(out: Outcome, input: Admit) {
    out.answer.Ok? ==>
      input.op in out.world.ops && out.world.ops[input.op] == OperationRecord(input, out.answer.value)
  }

  lemma HandOffRecords(w: World, input: Admit, h: Handoff, reach: Reach)
    ensures Records(HandOff(w, input, h, reach), input)
  {
  }

  lemma DecisionRecords(w: World, input: Admit, env: Env)
    ensures Records(DecideAdmission(w, input, env), input)
  {
    hide HandOff, Judge, Initial;
    var retained := RetainDecision(Spend(w), input, Initial(w.link, input, env));
    HandOffRecords(retained, input, retained.handoffs[input.op], env.initializeCall);
  }

  lemma CheckRecords(w: World, input: Admit, env: Env)
    ensures Records(CheckExisting(w, input, env), input)
  {
    hide DecideAdmission, CallEligibility;
    if input.requester !in w.pointer {
      DecisionRecords(w, input, env);
    } else {
      DecisionRecords(CallEligibility(w, w.pointer[input.requester], input, env).0, input, env);
    }
  }

  /** Once an operation was answered, every later call under its identity changes nothing: the same normalised
    * input gets the original receipt, whatever has expired, been revoked or used up, and any other input conflicts. */
  lemma {:induction false} ReceiptsAreReplayed(w: World, actions: seq<Action>, n: nat, raw: Admit, env: Env)
    requires Created(w) && FreshRun(w, actions) && n < |actions| && actions[n].Admitting?
    requires raw.requester != 0 && raw.op == actions[n].raw.op && Normalize(raw).Ok?
    requires AdmitOutcome(Run(w, actions[..n]), actions[n].raw, actions[n].env).answer.Ok?
    ensures AdmitOutcome(Run(w, actions), raw, env)
         == Outcome(Run(w, actions),
                    if Normalize(raw) == Normalize(actions[n].raw)
                    then AdmitOutcome(Run(w, actions[..n]), actions[n].raw, actions[n].env).answer
                    else Err(Conflict))
  {
    hide Good, Created, CheckExisting, HandOff, Normalize;
    FreshPrefix(w, actions, n + 1);
    assert actions[..n + 1][..n] == actions[..n];
    FreshPrefix(w, actions, n);
    RunsAreGood(w, actions[..n]);
    var before := Run(w, actions[..n]);
    AnswerIsRecorded(before, actions[n].raw, actions[n].env);
    assert Run(w, actions[..n + 1]) == Step(before, actions[n]);
    CreatedIsGood(w);
    LaterFollows(w, actions, n + 1);
    KeepsOp(raw);
  }

  lemma KeepsOp(raw: Admit)
    ensures Normalize(raw).Ok? ==> Normalize(raw).value.op == raw.op && Normalize(raw).value.requester == raw.requester
  {
  }

  /** A retained decision is never lost and never taken again: at any later moment the same operation, retried with
    * its owner reachable, gets it and consumes no further use. */
  lemma {:induction false} HandOffsResume(w: World, actions: seq<Action>, n: nat, raw: Admit, env: Env)
    requires Created(w) && FreshRun(w, actions) && n <= |actions|
    requires raw.requester != 0 && raw.op in Run(w, actions[..n]).handoffs
    requires Normalize(raw) == Ok(Run(w, actions[..n]).handoffs[raw.op].record.input)
    requires env.initializeCall == Answered
    ensures var decided := Run(w, actions[..n]).handoffs[raw.op];
            var out := AdmitOutcome(Run(w, actions), raw, env);
            && out.answer == Ok(AcceptedReceipt(decided.initialization))
            && decided.initialization.requestId in out.world.requests
            && out.world.link == Run(w, actions).link
            && out.world.admissions == Run(w, actions).admissions
  {
    hide Created, CheckExisting, HandOff, Normalize, OwnersAgree, OnlyLatestOpen, VerdictsStand, Counted, Backed, Run;
    var before, v := Run(w, actions[..n]), Run(w, actions);
    FreshPrefix(w, actions, n);
    RunsAreGood(w, actions[..n]);
    HandOffIsBound(before, raw.op);
    CreatedIsGood(w);
    LaterFollows(w, actions, n);
    assert HandOffMoves(before, v, raw.op);
    KeepsOp(raw);
    if raw.op in v.handoffs {
      HandOffFollows(v, raw.op, Answered);
      HandOffInitializes(v, v.handoffs[raw.op].record.input, v.handoffs[raw.op]);
    } else {
      assert raw.op in Consumers(v);
      AcceptedIsHeld(v, raw.op);
    }
  }

  lemma HandOffInitializes(w: World, input: Admit, h: Handoff)
    ensures HandOff(w, input, h, Answered).answer.Ok? ==>
              h.initialization.requestId in HandOff(w, input, h, Answered).world.requests
  {
  }

  lemma AcceptedIsHeld(w: World, o: OperationId)
    requires Good(w) && o in w.ops && o in Consumers(w)
    ensures w.ops[o].receipt.result.requestId in w.requests
  {
    assert Backed(w, o);
  }

  /** With every call answered and sent, usable evidence and room to count, a new operation is answered if and only if its
    * requester has no earlier request whose own hand-off is still interrupted; otherwise it stays uncertain. */
  lemma {:induction false} AnsweredExactly(w: World, actions: seq<Action>, raw: Admit, env: Env)
    requires Created(w) && FreshRun(w, actions) && env.freshId !in Run(w, actions).admissions
    requires raw.requester != 0 && Normalize(raw).Ok? && Undecided(Run(w, actions), Normalize(raw).value)
    requires env.eligibilityCall == Answered && env.initializeCall == Answered && env.projected
    requires env.evidence.Some? && !env.evidence.value.eligibility.Unknown? && env.decidedAt < env.evidence.value.validUntil
    requires Run(w, actions).link.uses < U64_MAX
    ensures var v := Run(w, actions);
            AdmitOutcome(v, raw, env).answer.Ok?
            <==> (raw.requester in v.pointer ==> v.pointer[raw.requester] in v.requests)
    ensures !AdmitOutcome(Run(w, actions), raw, env).answer.Ok? ==>
              AdmitOutcome(Run(w, actions), raw, env).answer == Err(Uncertain)
  {
    hide Created, Normalize, Run, FreshRun, EveryoneBacked, VerdictsStand, Counted, CheckExisting, Bound, OwnersAgree,
      OnlyLatestOpen, Undecided;
    RunsAreGood(w, actions);
    KeepsOp(raw);
    var v := Run(w, actions);
    var input := Normalize(raw).value;
    UndecidedMeans(v, input);
    var bound := Bind(v, input);
    BindingFollows(v, input, bound);
    if input.requester in v.pointer && v.pointer[input.requester] in v.requests {
      PointerIsOwn(v, input.requester);
    }
    CheckAnswersExactly(bound, input, env);
  }

  lemma UndecidedMeans(w: World, input: Admit)
    requires Undecided(w, input)
    ensures input.op !in w.ops && input.op !in w.handoffs
    ensures input.op in w.attempts ==> w.attempts[input.op] == input
  {
  }

  lemma PointerIsOwn(w: World, q: UserId)
    requires Good(w) && q in w.pointer && w.pointer[q] in w.requests
    ensures w.requests[w.pointer[q]].initial.requester == q
  {
  }

  lemma FreshIsUnheld(w: World, id: RequestId)
    requires Good(w) && id !in w.admissions
    ensures id !in w.requests
  {
  }

  lemma CheckAnswersExactly(w: World, input: Admit, env: Env)
    requires Good(w) && input.op in w.attempts && w.attempts[input.op] == input && Undecided(w, input)
    requires env.freshId !in w.admissions
    requires env.eligibilityCall == Answered && env.initializeCall == Answered && env.projected
    requires env.evidence.Some? && !env.evidence.value.eligibility.Unknown? && env.decidedAt < env.evidence.value.validUntil
    requires w.link.uses < U64_MAX
    requires input.requester in w.pointer && w.pointer[input.requester] in w.requests ==>
               w.requests[w.pointer[input.requester]].initial.requester == input.requester
    ensures var out := CheckExisting(w, input, env).answer;
            if input.requester in w.pointer && w.pointer[input.requester] !in w.requests then out == Err(Uncertain)
            else out.Ok?
  {
    hide EveryoneBacked, VerdictsStand, Counted, Bound, OwnersAgree, OnlyLatestOpen, CallEligibility, DecideAdmission;
    FreshIsUnheld(w, env.freshId);
    if input.requester !in w.pointer {
      DecisionIsAnswered(w, input, env);
    } else {
      CallEligibilityFollows(w, w.pointer[input.requester], input, env);
      var (asked, verdict) := CallEligibility(w, w.pointer[input.requester], input, env);
      if verdict.Some? && !verdict.value.blocking {
        FreshIsUnheld(asked, env.freshId);
        DecisionIsAnswered(asked, input, env);
      }
    }
  }

  lemma DecisionIsAnswered(w: World, input: Admit, env: Env)
    requires env.freshId !in w.requests && env.initializeCall == Answered && env.projected && w.link.uses < U64_MAX
    requires env.evidence.Some? && !env.evidence.value.eligibility.Unknown? && env.decidedAt < env.evidence.value.validUntil
    ensures DecideAdmission(w, input, env).answer.Ok?
  {
  }

  /** Such an interruption is reachable, and then no surroundings let another operation through. */
  lemma InterruptedHandOffBlocks(w: World, env: Env, again: Env)
    requires Created(w) && w.link == Link(None, None, false, 0, 1, None)
    requires env == Env(Undelivered, 0, 9, Some(Evidence(Available, 20)), 9, 7, true, Undelivered)
    ensures var run := [Admitting(Admit(1, 2, None), env)];
            && FreshRun(w, run)
            && Run(w, run).pointer == map[2 := 7] && 7 !in Run(w, run).requests
            && AdmitOutcome(Run(w, run), Admit(3, 2, None), again).answer == Err(Uncertain)
  {
    var run := [Admitting(Admit(1, 2, None), env)];
    assert run[..0] == [];
    assert Judge(w.link, env.evidence, 9) == Accept;
    assert Run(w, run) == AdmitOutcome(w, Admit(1, 2, None), env).world;
  }

  // --- owners in between --------------------------------------------------------

  function RequestOfStep(a: Action): RequestId
    requires OfOwner(a)
  {
    match a
    case Deciding(id, _, _) => id
    case Ticking(id, _) => id
    case InitializingLate(id) => id
    case JudgingLate(id, _, _) => id
  }

  /** `v` and `w` agree on what a step of the owner of `id` reads. */
  ghost predicate AgreeOn(w: World, v: World, id: RequestId) {
    && v.attempts == w.attempts && v.verdicts == w.verdicts
    && (id in v.requests <==> id in w.requests) && (id in w.requests ==> v.requests[id] == w.requests[id])
    && (id in v.admissions <==> id in w.admissions) && (id in w.admissions ==> v.admissions[id] == w.admissions[id])
  }

  /** `w` goes to `w'` as `v` goes to `v'`, by what happens to request `id` and the verdicts alone. */
  ghost predicate SameEffect(w: World, v: World, w': World, v': World, id: RequestId) {
    && w' == w.(requests := w'.requests, verdicts := w'.verdicts)
    && v' == v.(requests := v'.requests, verdicts := w'.verdicts)
    && (if id in w'.requests
        then w'.requests == w.requests[id := w'.requests[id]] && v'.requests == v.requests[id := w'.requests[id]]
        else w'.requests == w.requests && v'.requests == v.requests)
  }

  /** A step of an owner has the same effect on its request in both, and none on anything but requests and verdicts. */
  lemma OwnerStepIsLocal(w: World, v: World, a: Action)
    requires OfOwner(a) && AgreeOn(w, v, RequestOfStep(a))
    requires RequestOfStep(a) in w.admissions ==> w.admissions[RequestOfStep(a)].requestId == RequestOfStep(a)
    ensures SameEffect(w, v, Step(w, a), Step(v, a), RequestOfStep(a))
  {
    hide ExpireDue, DecideRequest, Blocks;
    var id := RequestOfStep(a);
    if a.JudgingLate? {
      JudgingIsLocal(w, v, a);
      return;
    }
    assert id in w.requests ==> w.requests == w.requests[id := w.requests[id]];
    assert id in v.requests ==> v.requests == v.requests[id := v.requests[id]];
  }

  lemma JudgingIsLocal(w: World, v: World, a: Action)
    requires a.JudgingLate? && AgreeOn(w, v, a.judged)
    ensures SameEffect(w, v, Step(w, a), Step(v, a), a.judged)
  {
    hide ExpireDue, Blocks, EligibilityVerdict, ToBeJudged;
    var id := a.judged;
    if a.op in w.attempts {
      assert ToBeJudged(w, id, w.attempts[a.op]) == ToBeJudged(v, id, w.attempts[a.op]) by {
        SameToJudge(w, v, id, w.attempts[a.op]);
      }
      VerdictEffect(w, id, w.attempts[a.op], a.judgedAt);
      VerdictEffect(v, id, w.attempts[a.op], a.judgedAt);
    }
    assert id in w.requests ==> w.requests == w.requests[id := w.requests[id]];
    assert id in v.requests ==> v.requests == v.requests[id := v.requests[id]];
  }

  lemma SameToJudge(w: World, v: World, id: RequestId, attempt: Admit)
    requires AgreeOn(w, v, id)
    ensures ToBeJudged(w, id, attempt) == ToBeJudged(v, id, attempt)
  {
  }

  lemma VerdictEffect(w: World, id: RequestId, attempt: Admit, at: int)
    ensures ToBeJudged(w, id, attempt) ==> id in w.requests
    ensures EligibilityVerdict(w, id, attempt, at).0 ==
      if !ToBeJudged(w, id, attempt) then w
      else
        var r := ExpireDue(w.requests[id], at);
        w.(requests := w.requests[id := r],
           verdicts := w.verdicts[(id, attempt.op) := Verdict(at, attempt, Blocks(r.state))])
  {
  }

  /** `v` is `w` with other requests and verdicts. */
  ghost predicate Beside(w: World, v: World) {
    v == w.(requests := v.requests, verdicts := v.verdicts)
  }

  /** From `w` and `v`, which differ in requests and verdicts only, `a` and `b` come of the same addition under `id`. */
  ghost predicate AddedAlike(w: World, v: World, a: World, b: World, id: RequestId) {
    && Beside(a, b) && a.verdicts == w.verdicts && b.verdicts == v.verdicts && a.attempts == w.attempts
    && (forall r :: r != id ==> (r in a.admissions <==> r in w.admissions))
    && (forall r :: r != id && r in w.admissions ==> a.admissions[r] == w.admissions[r])
    && (if id in a.requests
        then a.requests == w.requests[id := a.requests[id]] && b.requests == v.requests[id := a.requests[id]]
        else a.requests == w.requests && b.requests == v.requests)
  }

  lemma HandOffIsLocal(w: World, v: World, input: Admit, h: Handoff, reach: Reach)
    requires Beside(w, v)
    requires h.initialization.requestId !in w.requests && h.initialization.requestId !in v.requests
    ensures var a, b := HandOff(w, input, h, reach), HandOff(v, input, h, reach);
            b.answer == a.answer && AddedAlike(w, v, a.world, b.world, h.initialization.requestId)
  {
  }

  lemma RetainedBeside(w: World, v: World, input: Admit, init: Initialization)
    requires Beside(w, v)
    ensures var a, b := RetainDecision(Spend(w), input, init), RetainDecision(Spend(v), input, init);
            && Beside(a, b) && Beside(Spend(w), Spend(v)) && input.op in a.handoffs && input.op in b.handoffs
            && a.handoffs[input.op] == b.handoffs[input.op] && a.handoffs[input.op].initialization == init
            && a.requests == w.requests && b.requests == v.requests && a.verdicts == w.verdicts && b.verdicts == v.verdicts
            && a.attempts == w.attempts && a.admissions == w.admissions[init.requestId := init]
  {
  }

  /** A decision reads nothing of the requests held, and adds at most the new one. */
  lemma DecisionIsLocal(w: World, v: World, input: Admit, env: Env)
    requires Beside(w, v)
    requires env.freshId !in w.requests && env.freshId !in v.requests
    ensures var a, b := DecideAdmission(w, input, env), DecideAdmission(v, input, env);
            b.answer == a.answer && AddedAlike(w, v, a.world, b.world, env.freshId)
  {
    hide Judge, InactiveAt, HandOff, RetainDecision, AddedAlike;
    AcceptedIsLocal(w, v, input, Initial(w.link, input, env), env.initializeCall);
    UnchangedIsLocal(w, v, input, env.freshId);
  }

  lemma AcceptedIsLocal(w: World, v: World, input: Admit, init: Initialization, reach: Reach)
    requires Beside(w, v) && init.requestId !in w.requests && init.requestId !in v.requests
    ensures var a, b := RetainDecision(Spend(w), input, init), RetainDecision(Spend(v), input, init);
            var x, y := HandOff(a, input, a.handoffs[input.op], reach), HandOff(b, input, b.handoffs[input.op], reach);
            y.answer == x.answer && AddedAlike(w, v, x.world, y.world, init.requestId)
  {
    hide HandOff, RetainDecision;
    RetainedBeside(w, v, input, init);
    var a, b := RetainDecision(Spend(w), input, init), RetainDecision(Spend(v), input, init);
    HandOffIsLocal(a, b, input, a.handoffs[input.op], reach);
  }

  lemma UnchangedIsLocal(w: World, v: World, input: Admit, id: RequestId)
    requires Beside(w, v) && id !in w.requests && id !in v.requests
    ensures AddedAlike(w, v, w, v, id) && AddedAlike(w, v, Spend(w), Spend(v), id)
    ensures forall receipt :: AddedAlike(w, v, Record(w, input, receipt), Record(v, input, receipt), id)
  {
  }

  /** An addition and an owner's step that concern different requests: either order ends the same. */
  lemma EffectsMeet(w: World, v: World, x: World, y: World, z: World, id: RequestId, added: RequestId)
    requires id != added && AddedAlike(w, v, x, y, added)
    requires SameEffect(w, w, v, v, id) && SameEffect(w, x, v, z, id)
    ensures z == y
  {
    assert z.requests == y.requests;
  }

  lemma AdditionAgrees(w: World, v: World, x: World, y: World, id: RequestId, added: RequestId)
    requires id != added && AddedAlike(w, v, x, y, added)
    ensures AgreeOn(w, x, id)
  {
  }

  lemma EffectBeside(w: World, v: World, id: RequestId, other: RequestId)
    requires SameEffect(w, w, v, v, id) && other != id && other !in w.requests
    ensures Beside(w, v) && other !in v.requests
  {
  }

  /** Between the retained decision and the call of the new request's owner, a step on another request has the
    * effect it has after the hand-off. */
  lemma OwnerStepsCommuteWithHandOff(w: World, input: Admit, h: Handoff, reach: Reach, a: Action)
    requires h.initialization.requestId !in w.requests
    requires OfOwner(a) && RequestOfStep(a) != h.initialization.requestId
    requires RequestOfStep(a) in w.admissions ==> w.admissions[RequestOfStep(a)].requestId == RequestOfStep(a)
    ensures HandOff(Step(w, a), input, h, reach)
         == Outcome(Step(HandOff(w, input, h, reach).world, a), HandOff(w, input, h, reach).answer)
  {
    hide Step, HandOff, OfOwner, SameEffect, AddedAlike, AgreeOn, Beside;
    var id, added, v := RequestOfStep(a), h.initialization.requestId, Step(w, a);
    StayingAgrees(w, id);
    OwnerStepIsLocal(w, w, a);
    EffectBeside(w, v, id, added);
    HandOffIsLocal(w, v, input, h, reach);
    var x, y := HandOff(w, input, h, reach).world, HandOff(v, input, h, reach).world;
    AdditionAgrees(w, v, x, y, id, added);
    OwnerStepIsLocal(w, x, a);
    EffectsMeet(w, v, x, y, Step(x, a), id, added);
  }

  lemma StayingAgrees(w: World, id: RequestId)
    ensures AgreeOn(w, w, id)
  {
  }

  /** Between an owner's verdict and the decision, a step on another request than the one to be admitted has the
    * effect it has after the admission. */
  lemma OwnerStepsCommute(w: World, input: Admit, env: Env, a: Action)
    requires Good(w) && env.freshId !in w.admissions
    requires OfOwner(a) && RequestOfStep(a) != env.freshId
    ensures DecideAdmission(Step(w, a), input, env)
         == Outcome(Step(DecideAdmission(w, input, env).world, a), DecideAdmission(w, input, env).answer)
  {
    hide Good, Step, DecideAdmission, OfOwner, SameEffect, AddedAlike, AgreeOn, Beside;
    var id, v := RequestOfStep(a), Step(w, a);
    FreshIsUnheld(w, env.freshId);
    if id in w.admissions {
      GoodIdentity(w, id);
    }
    StayingAgrees(w, id);
    OwnerStepIsLocal(w, w, a);
    EffectBeside(w, v, id, env.freshId);
    DecisionIsLocal(w, v, input, env);
    var x, y := DecideAdmission(w, input, env).world, DecideAdmission(v, input, env).world;
    AdditionAgrees(w, v, x, y, id, env.freshId);
    OwnerStepIsLocal(w, x, a);
    EffectsMeet(w, v, x, y, Step(x, a), id, env.freshId);
  }

  /** Before the new request is held, its own owner has nothing to do but be initialised. */
  lemma UnheldRequestsRest(w: World, a: Action)
    requires OfOwner(a) && !a.InitializingLate? && RequestOfStep(a) !in w.requests
    ensures Step(w, a) == w
  {
  }

  /** Between the binding of the attempt and the eligibility call, a step of any owner has the effect it has before
    * the admission. A late call for this very attempt presupposes that an earlier call bound it. */
  lemma OwnerStepsCommuteWithBinding(w: World, input: Admit, a: Action)
    requires Undecided(w, input) && OfOwner(a)
    requires a.JudgingLate? && a.op == input.op ==> input.op in w.attempts
    ensures Step(Bind(w, input), a) == Bind(Step(w, a), input)
  {
    hide ExpireDue, DecideRequest;
    if a.JudgingLate? {
      JudgingIgnoresBinding(w, input, a);
    }
  }

  lemma JudgingIgnoresBinding(w: World, input: Admit, a: Action)
    requires Undecided(w, input) && a.JudgingLate?
    requires a.op == input.op ==> input.op in w.attempts
    ensures Step(Bind(w, input), a) == Bind(Step(w, a), input)
  {
    hide EligibilityVerdict;
    if a.op in w.attempts {
      VerdictIgnoresBinding(w, input, a.judged, w.attempts[a.op], a.judgedAt);
    }
  }

  lemma VerdictIgnoresBinding(w: World, input: Admit, id: RequestId, attempt: Admit, at: int)
    ensures EligibilityVerdict(Bind(w, input), id, attempt, at).0 == Bind(EligibilityVerdict(w, id, attempt, at).0, input)
  {
    hide ExpireDue, Blocks, EligibilityVerdict;
    VerdictEffect(w, id, attempt, at);
    VerdictEffect(Bind(w, input), id, attempt, at);
  }

  /** Between the answer of the new request's owner and the receipt, a step of any owner, this one too, has the effect
    * it has after the receipt. */
  lemma OwnerStepsCommuteWithReceipt(w: World, input: Admit, receipt: Receipt, a: Action)
    requires OfOwner(a)
    ensures Step(Record(w, input, receipt), a) == Record(Step(w, a), input, receipt)
  {
    hide ExpireDue, DecideRequest, EligibilityVerdict;
    if a.JudgingLate? {
      JudgingIgnoresReceipt(w, input, receipt, a);
    }
  }

  lemma JudgingIgnoresReceipt(w: World, input: Admit, receipt: Receipt, a: Action)
    requires a.JudgingLate?
    ensures Step(Record(w, input, receipt), a) == Record(Step(w, a), input, receipt)
  {
    hide ExpireDue, Blocks, EligibilityVerdict;
    if a.op in w.attempts {
      VerdictEffect(w, a.judged, w.attempts[a.op], a.judgedAt);
      VerdictEffect(Record(w, input, receipt), a.judged, w.attempts[a.op], a.judgedAt);
    }
  }

  lemma GoodIdentity(w: World, r: RequestId)
    requires Good(w) && r in w.admissions
    ensures w.admissions[r].requestId == r
  {
  }

  // --- when a use is consumed ---------------------------------------------------

  ghost predicate EvidenceHolds(env: Env) {
    env.evidence.Some? && env.evidence.value.eligibility.Available? && env.decidedAt < env.evidence.value.validUntil
  }

  /** The link had expired when availability was asked about, and had not when the admission was decided. */
  ghost predicate ClockSteppedBackOverExpiry(l: Link, env: Env) {
    l.expiresAt.Some? && env.decidedAt < l.expiresAt.value <= env.checkedAt
  }

  /** Every use of every run is consumed by an admission of an active link, backed by availability evidence that is
    * still valid, unless the clock went back over the link's expiration while it was decided. */
  lemma UsesNeedEvidence(w: World, actions: seq<Action>, a: Action)
    requires Created(w) && FreshRun(w, actions) && FreshFor(Run(w, actions), a)
    requires Step(Run(w, actions), a).link.uses != Run(w, actions).link.uses
    ensures a.Admitting? && Step(Run(w, actions), a).link.uses == Run(w, actions).link.uses + 1
    ensures InactiveAt(Run(w, actions).link, a.env.decidedAt).None?
    ensures EvidenceHolds(a.env) || ClockSteppedBackOverExpiry(Run(w, actions).link, a.env)
  {
    hide Created, Good, Run, FreshRun, Step, FreshFor;
    RunsAreGood(w, actions);
    StepFollows(Run(w, actions), a);
  }

  /** The requester has no earlier request, or its owner answers that it does not block. */
  ghost predicate EarlierEnded(w: World, input: Admit, env: Env) {
    input.requester in w.pointer ==>
      var id := w.pointer[input.requester];
      && env.eligibilityCall == Answered
      && id in w.requests
      && !(if (id, input.op) in w.verdicts then w.verdicts[(id, input.op)].blocking
           else Blocks(ExpireDue(w.requests[id], env.verdictAt).state))
  }

  /** A new operation lacking such evidence consumes a use if and only if the clock stepped back like that, on a
    * link that is neither revoked nor used up, and the requester's earlier request, if any, is answered to have
    * ended: then the evidence was never asked for. */
  lemma UncheckedExactly(w: World, actions: seq<Action>, raw: Admit, env: Env)
    requires Created(w) && FreshRun(w, actions) && env.freshId !in Run(w, actions).admissions
    requires raw.requester != 0 && Normalize(raw).Ok? && Undecided(Run(w, actions), Normalize(raw).value)
    requires Run(w, actions).link.uses < U64_MAX
    requires !EvidenceHolds(env)
    ensures var v := Run(w, actions);
            AdmitOutcome(v, raw, env).world.link.uses == v.link.uses + 1
            <==> ClockSteppedBackOverExpiry(v.link, env) && v.link.revokedAt.None?
                 && (v.link.maxUses.Some? ==> v.link.uses < v.link.maxUses.value)
                 && EarlierEnded(v, Normalize(raw).value, env)
  {
    hide Created, Good, Run, FreshRun, Normalize, CheckExisting, Undecided, Follows, EarlierEnded;
    var v := Run(w, actions);
    RunsAreGood(w, actions);
    KeepsOp(raw);
    var input := Normalize(raw).value;
    UndecidedMeans(v, input);
    var bound := Bind(v, input);
    BindingFollows(v, input, bound);
    FollowsIsGood(v, bound);
    CheckSpendsExactly(bound, input, env);
    EndedIgnoresBinding(v, bound, input, env);
  }

  lemma EndedIgnoresBinding(v: World, bound: World, input: Admit, env: Env)
    requires bound == v.(attempts := bound.attempts, latest := bound.latest)
    ensures EarlierEnded(bound, input, env) <==> EarlierEnded(v, input, env)
  {
  }

  lemma CheckSpendsExactly(w: World, input: Admit, env: Env)
    requires Good(w) && Undecided(w, input) && input.op in w.attempts && env.freshId !in w.admissions
    ensures CheckExisting(w, input, env).world.link.uses == w.link.uses + 1 <==>
      Admits(w.link, env) && EarlierEnded(w, input, env)
  {
    hide Good, DecideAdmission, CallEligibility, Admits, Follows, EarlierEnded;
    EndedMeans(w, input, env);
    if input.requester !in w.pointer {
      DecideFollows(w, input, env);
    } else {
      UndecidedMeans(w, input);
      CallEligibilityFollows(w, w.pointer[input.requester], input, env);
      var (asked, verdict) := CallEligibility(w, w.pointer[input.requester], input, env);
      if verdict.Some? && !verdict.value.blocking {
        FollowsIsGood(w, asked);
        DecideFollows(asked, input, env);
      }
    }
  }

  lemma EndedMeans(w: World, input: Admit, env: Env)
    requires Good(w) && input.op in w.attempts && w.attempts[input.op] == input
    ensures EarlierEnded(w, input, env) <==>
      (input.requester in w.pointer ==>
         var verdict := CallEligibility(w, w.pointer[input.requester], input, env).1;
         verdict.Some? && !verdict.value.blocking)
  {
    hide EveryoneBacked, OwnersAgree, OnlyLatestOpen, VerdictsStand, Counted, Bound;
    if input.requester in w.pointer {
      var id := w.pointer[input.requester];
      if id in w.requests {
        PointerIsOwn(w, input.requester);
        if (id, input.op) in w.verdicts {
          VerdictIsForAttempt(w, id, input.op, input.requester);
        }
      }
    }
  }

  /** The exception is real: a link that expires at 10, asked about at 10 and decided at 9. */
  lemma SteppedBackClockAdmitsUnchecked(w: World, env: Env)
    requires Created(w) && w.link == Link(Some(1), Some(10), true, 0, 1, None)
    requires env == Env(Undelivered, 0, 10, None, 9, 7, true, Answered)
    ensures AdmitOutcome(w, Admit(1, 2, None), env).answer
         == Ok(Receipt(9, Accepted(7, Pending, Some(9 + PENDING_LIFETIME))))
  {
    assert InactiveAt(w.link, 9).None?;
  }

  /** A link that has been revoked, or used up, or has expired for every clock reading to come, admits no more. */
  ghost predicate Stopped(l: Link, rest: seq<Action>) {
    || l.revokedAt.Some?
    || (l.maxUses.Some? && l.uses == l.maxUses.value)
    || (l.expiresAt.Some?
        && forall k :: 0 <= k < |rest| && rest[k].Admitting? ==> l.expiresAt.value <= rest[k].env.decidedAt)
  }

  lemma {:induction false} StoppedLinksAdmitNoMore(w: World, actions: seq<Action>, n: nat)
    requires Created(w) && FreshRun(w, actions) && n <= |actions|
    requires Stopped(Run(w, actions[..n]).link, actions[n..])
    ensures Run(w, actions).link.uses == Run(w, actions[..n]).link.uses
    ensures Run(w, actions).admissions == Run(w, actions[..n]).admissions
    decreases |actions|
  {
    hide Created, Good, Step, FreshFor;
    if n == |actions| {
      assert actions[..n] == actions;
    } else {
      var last := |actions| - 1;
      assert actions[..last][..n] == actions[..n];
      assert actions[..last][n..] == actions[n..last];
      StoppedLinksAdmitNoMore(w, actions[..last], n);
      var start, before := Run(w, actions[..n]), Run(w, actions[..last]);
      FreshPrefix(w, actions, n);
      RunsAreGood(w, actions[..last]);
      CreatedIsGood(w);
      LaterFollows(w, actions[..last], n);
      LinkHasMoved(start, before);
      assert actions[last] == actions[n..][last - n];
      StepFollows(before, actions[last]);
      if actions[last].Admitting? {
        NotAdmitted(start.link, before.link, actions[n..], last - n);
      }
      SameUsesSameAdmissions(before, Step(before, actions[last]));
    }
  }

  lemma LinkHasMoved(w: World, v: World)
    requires Follows(w, v)
    ensures LinkMoves(w.link, v.link)
  {
  }

  lemma NotAdmitted(l: Link, m: Link, rest: seq<Action>, k: nat)
    requires Stopped(l, rest) && LinkMoves(l, m) && k < |rest| && rest[k].Admitting?
    ensures !Admits(m, rest[k].env)
  {
  }

  lemma SameUsesSameAdmissions(w: World, v: World)
    requires Follows(w, v) && |v.admissions| == |w.admissions|
    ensures v.admissions == w.admissions
  {
    hide EveryoneBacked, OnlyLatestOpen, OwnersAgree, Bound, VerdictsStand, Consumers;
    assert w.admissions.Keys <= v.admissions.Keys;
    SubsetOfSameSize(w.admissions.Keys, v.admissions.Keys);
  }

  lemma SubsetOfSameSize<T>(a: set<T>, b: set<T>)
    requires a <= b && |a| == |b|
    ensures a == b
  {
    assert |b - a| == |b| - |a|;
  }

  /** A blocking verdict stays what it was: however long the interruption, and even if the request has expired or
    * been declined since, the attempt it was given for is rejected as of the original evaluation. */
  lemma BlockingVerdictsBind(w: World, actions: seq<Action>, n: nat, r: RequestId, raw: Admit, env: Env)
    requires Created(w) && FreshRun(w, actions) && n <= |actions|
    requires (r, raw.op) in Run(w, actions[..n]).verdicts && Run(w, actions[..n]).verdicts[(r, raw.op)].blocking
    requires raw.requester != 0 && Normalize(raw).Ok? && Undecided(Run(w, actions), Normalize(raw).value)
    requires raw.requester in Run(w, actions).pointer && Run(w, actions).pointer[raw.requester] == r
    requires env.eligibilityCall == Answered
    ensures AdmitOutcome(Run(w, actions), raw, env).answer
         == Ok(Receipt(Run(w, actions[..n]).verdicts[(r, raw.op)].at, Rejected(ExistingRequest)))
  {
    hide Created, Good, Run, FreshRun, Normalize, DecideAdmission;
    var before, v := Run(w, actions[..n]), Run(w, actions);
    RunsAreGood(w, actions);
    CreatedIsGood(w);
    LaterFollows(w, actions, n);
    KeepsOp(raw);
    VerdictIsForAttempt(v, r, raw.op, raw.requester);
  }

  lemma VerdictIsForAttempt(w: World, r: RequestId, o: OperationId, q: UserId)
    requires Good(w) && (r, o) in w.verdicts && q in w.pointer && w.pointer[q] == r
    ensures o in w.attempts && w.verdicts[(r, o)].attempt == w.attempts[o]
    ensures r in w.requests && w.requests[r].initial.requester == q
  {
  }

  // --- decisions on requests ----------------------------------------------------

  /** Admissions hold new requests as they were admitted, and change held ones only by expiring them. */
  ghost predicate OnlyExpires(w: World, v: World) {
    forall r :: r in v.requests ==>
      if r in w.requests then v.requests[r] == w.requests[r] || v.requests[r] == w.requests[r].(state := Expired)
      else v.requests[r].state == v.requests[r].initial.state
  }

  lemma OnlyExpiresTransitive(u: World, v: World, w: World)
    requires OnlyExpires(u, v) && OnlyExpires(v, w) && u.requests.Keys == v.requests.Keys
    ensures OnlyExpires(u, w)
  {
  }

  lemma AdmissionsOnlyExpire(w: World, raw: Admit, env: Env)
    ensures OnlyExpires(w, AdmitOutcome(w, raw, env).world)
  {
    hide Normalize, CheckExisting, HandOff;
    if raw.requester != 0 && Normalize(raw).Ok? {
      var input := Normalize(raw).value;
      if input.op in w.handoffs {
        HandOffOnlyExpires(w, input, w.handoffs[input.op], env.initializeCall);
      } else {
        CheckOnlyExpires(Bind(w, input), input, env);
      }
    }
  }

  lemma HandOffOnlyExpires(w: World, input: Admit, h: Handoff, reach: Reach)
    ensures OnlyExpires(w, HandOff(w, input, h, reach).world)
  {
    hide Initialize, Record;
    InitializeOnlyExpires(w, h.initialization);
    RecordKeepsRequests(Initialize(w, h.initialization).0, input, h.record.receipt);
  }

  lemma InitializeOnlyExpires(w: World, init: Initialization)
    ensures OnlyExpires(w, Initialize(w, init).0) && OnlyExpires(w, w)
  {
  }

  lemma RecordKeepsRequests(w: World, input: Admit, receipt: Receipt)
    ensures Record(w, input, receipt).requests == w.requests
  {
  }

  lemma DecisionOnlyExpires(w: World, input: Admit, env: Env)
    ensures OnlyExpires(w, DecideAdmission(w, input, env).world)
  {
    hide HandOff, Judge, Initial;
    var retained := RetainDecision(Spend(w), input, Initial(w.link, input, env));
    HandOffOnlyExpires(retained, input, retained.handoffs[input.op], env.initializeCall);
  }

  lemma EligibilityOnlyExpires(w: World, id: RequestId, attempt: Admit, env: Env)
    ensures OnlyExpires(w, CallEligibility(w, id, attempt, env).0)
    ensures w.requests.Keys == CallEligibility(w, id, attempt, env).0.requests.Keys
  {
    hide EligibilityVerdict;
    VerdictOnlyExpires(w, id, attempt, env.verdictAt);
  }

  lemma VerdictOnlyExpires(w: World, id: RequestId, attempt: Admit, at: int)
    ensures var v := EligibilityVerdict(w, id, attempt, at).0;
            OnlyExpires(w, v) && v.requests.Keys == w.requests.Keys
  {
    var v := EligibilityVerdict(w, id, attempt, at).0;
    if v != w {
      assert v.requests == w.requests[id := ExpireDue(w.requests[id], at)];
    }
  }

  lemma CheckOnlyExpires(w: World, input: Admit, env: Env)
    ensures OnlyExpires(w, CheckExisting(w, input, env).world)
  {
    hide DecideAdmission, CallEligibility;
    DecisionOnlyExpires(w, input, env);
    if input.requester in w.pointer {
      var asked := CallEligibility(w, w.pointer[input.requester], input, env).0;
      EligibilityOnlyExpires(w, w.pointer[input.requester], input, env);
      DecisionOnlyExpires(asked, input, env);
      OnlyExpiresTransitive(w, asked, DecideAdmission(asked, input, env).world);
    }
  }

  /** Step `k` decided request `r`, then pending, strictly before its deadline and as `state`. */
  ghost predicate DecidedAt(w: World, actions: seq<Action>, k: nat, r: RequestId, state: RequestState)
    requires k < |actions|
  {
    var before := Run(w, actions[..k]);
    && actions[k].Deciding? && actions[k].decided == r
    && state == (if actions[k].approve then Approved else Declined)
    && r in before.requests && before.requests[r].state == Pending
    && before.requests[r].initial.deadline.Some?
    && actions[k].decidedAt < before.requests[r].initial.deadline.value
  }

  /** A request that needed approval is approved, or declined, only by a decision taken while it was pending and
    * strictly before its deadline. */
  lemma {:induction false} DecidedInTime(w: World, actions: seq<Action>, r: RequestId)
    requires Created(w) && FreshRun(w, actions) && w.link.approvalRequired
    requires r in Run(w, actions).requests && Run(w, actions).requests[r].state in {Approved, Declined}
    ensures exists k :: 0 <= k < |actions| && DecidedAt(w, actions, k, r, Run(w, actions).requests[r].state)
    decreases |actions|
  {
    hide Created, Good, Step, FreshFor;
    if actions == [] {
      NothingHeld(w);
    } else {
      var last := |actions| - 1;
      var before, a := Run(w, actions[..last]), actions[last];
      RunsAreGood(w, actions);
      RunKeepsLink(w, actions);
      AdmittedPending(Run(w, actions), r);
      StepDecides(before, a, r);
      if r in before.requests && before.requests[r].state == Run(w, actions).requests[r].state {
        DecidedInTime(w, actions[..last], r);
        var k :| 0 <= k < last && DecidedAt(w, actions[..last], k, r, before.requests[r].state);
        assert actions[..last][..k] == actions[..k];
        assert DecidedAt(w, actions, k, r, Run(w, actions).requests[r].state);
      } else {
        assert DecidedAt(w, actions, last, r, Run(w, actions).requests[r].state);
      }
    }
  }

  lemma NothingHeld(w: World)
    requires Created(w)
    ensures w.requests == map[]
  {
  }

  lemma AdmittedPending(w: World, r: RequestId)
    requires Good(w) && w.link.approvalRequired && r in w.requests
    ensures w.requests[r].initial.state == Pending && w.requests[r].initial.deadline.Some?
  {
    assert Policy(w.link, w.admissions[r]);
  }

  /** The only step that approves or declines a request is a timely decision on it. */
  lemma StepDecides(w: World, a: Action, r: RequestId)
    requires r in Step(w, a).requests && Step(w, a).requests[r].state in {Approved, Declined}
    requires Step(w, a).requests[r].initial.state == Pending
    ensures r in w.requests
    ensures w.requests[r].state == Step(w, a).requests[r].state
         || (&& a.Deciding? && a.decided == r && w.requests[r].state == Pending
             && Step(w, a).requests[r].state == (if a.approve then Approved else Declined)
             && w.requests[r].initial.deadline.Some? && a.decidedAt < w.requests[r].initial.deadline.value)
  {
    hide AdmitOutcome, PrepareOutcome, DecideRequest, ExpireDue, OnlyExpires, EligibilityVerdict;
    match a
    case Admitting(raw, env) =>
      AdmissionsOnlyExpire(w, raw, env);
      ExpiresNotDecides(w, AdmitOutcome(w, raw, env).world, r);
    case Preparing(raw) =>
      PreparingKeepsRequests(w, raw);
    case Deciding(id, approve, at) =>
      if id in w.requests {
        RequestDecides(w.requests[id], approve, at);
      }
    case Ticking(id, at) =>
      if id in w.requests {
        RequestDecides(w.requests[id], true, at);
      }
    case InitializingLate(id) =>
    case JudgingLate(id, op, at) =>
      if op in w.attempts {
        VerdictOnlyExpires(w, id, w.attempts[op], at);
        ExpiresNotDecides(w, Step(w, a), r);
      }
    case _ =>
  }

  lemma RequestDecides(r: Request, approve: bool, at: int)
    ensures var d := DecideRequest(r, approve, at);
            d.state != r.state && d.state != Expired ==>
              && r.state == Pending && d.state == (if approve then Approved else Declined)
              && r.initial.deadline.Some? && at < r.initial.deadline.value
    ensures ExpireDue(r, at).state in {r.state, Expired}
  {
  }

  lemma PreparingKeepsRequests(w: World, raw: Admit)
    ensures var v := PrepareOutcome(w, raw);
            v.requests == w.requests && v.admissions == w.admissions && v.link == w.link
  {
  }

  lemma ExpiresNotDecides(w: World, v: World, r: RequestId)
    requires OnlyExpires(w, v) && r in v.requests && v.requests[r].state in {Approved, Declined}
    requires v.requests[r].initial.state == Pending
    ensures r in w.requests && w.requests[r].state == v.requests[r].state
  {
  }
}
