/**
 * The connection-request routes: `send` (interested / ignore), `review`
 * (accept / reject) and the two queries `received` and `connections`.
 *
 * `SendStep` and `ReviewStep` give the reply and the new ledger of one request
 * as functions of the ledger before it; the methods `Send` and `Review` carry
 * out the same steps on a `Collection` and are proved to agree with them. The
 * authenticated caller is the `actor` argument.
 */
module RequestRoutes {
  import opened Wrappers
  import opened ConnectionRequest
  import opened Query

  datatype Reason =
    | InvalidStatus(name: string)
    | InvalidReviewStatus(name: string)
    | AlreadyMarked(status: Status)
    | InterestedAfterIgnore
    | NoPendingRequest
    | SaveFailed(error: SaveError)

  /** The reply of a route: success with the stored record, or an error kind (400, 404, 500). */
  datatype Outcome =
    | Ok(data: Request)
    | BadRequest(reason: Reason)
    | NotFound(reason: Reason)
    | ServerError(reason: Reason)

  /** The reply to one request together with the ledger after it. */
  datatype Step = Step(outcome: Outcome, ledger: seq<Request>)

  /** The statuses `send` accepts. */
  function SendStatus(name: string): (s: Option<Status>)
    ensures s.Some? <==> name == "interested" || name == "ignore"
    ensures s.Some? ==> StatusName(s.value) == name
  {
    if name == "interested" then Some(Interested)
    else if name == "ignore" then Some(Ignore)
    else None
  }

  /** The statuses `review` accepts. */
  function ReviewStatus(name: string): (s: Option<Status>)
    ensures s.Some? <==> name == "accept" || name == "reject"
    ensures s.Some? ==> StatusName(s.value) == name
  {
    if name == "accept" then Some(Accept)
    else if name == "reject" then Some(Reject)
    else None
  }

  /** `send`'s lookup: a record between the two users, in either direction. */
  function PairFilter(a: UserId, b: UserId): (f: Filter)
    ensures forall r :: Matches(f, r) <==> Between(r, a, b)
  {
    var f := [Clause(Some(a), Some(b), None), Clause(Some(b), Some(a), None)];
    assert forall r :: Between(r, a, b) ==> ClauseMatches(f[0], r) || ClauseMatches(f[1], r);
    f
  }

  /** `review`'s lookup: an interested request from `requester` to `actor`. */
  function PendingFilter(requester: UserId, actor: UserId): (f: Filter)
    ensures forall r :: Matches(f, r) <==> r == Request(requester, actor, Interested)
  {
    var f := [Clause(Some(requester), Some(actor), Some(Interested))];
    assert forall r :: ClauseMatches(f[0], r) <==> r == Request(requester, actor, Interested);
    f
  }

  /** `received`'s query: interested requests addressed to `u`. */
  function IncomingFilter(u: UserId): (f: Filter)
    ensures forall r :: Matches(f, r) <==> r.toUserId == u && r.status == Interested
  {
    var f := [Clause(None, Some(u), Some(Interested))];
    assert forall r: Request :: r.toUserId == u && r.status == Interested ==> ClauseMatches(f[0], r);
    f
  }

  /** `connections`' query: accepted requests with `u` on either side. */
  function AcceptedFilter(u: UserId): (f: Filter)
    ensures forall r :: Matches(f, r) <==> r.status == Accept && (r.toUserId == u || r.fromUserId == u)
  {
    var f := [Clause(None, Some(u), Some(Accept)), Clause(Some(u), None, Some(Accept))];
    assert forall r: Request :: r.status == Accept && (r.toUserId == u || r.fromUserId == u) ==>
      ClauseMatches(f[0], r) || ClauseMatches(f[1], r);
    f
  }

  /** The ledger after a save, with the reply for it. */
  function Saved(w: (seq<Request>, Result<Request, SaveError>)): Step
  {
    Step(Reply(w.1), w.0)
  }

  /** POST /send/:status/:toUserId by `actor`. */
  function SendStep(rs: seq<Request>, actor: UserId, target: UserId, name: string): (step: Step)
    ensures SendStatus(name).None? ==> step.outcome == BadRequest(InvalidStatus(name))
    ensures !step.outcome.Ok? ==> step.ledger == rs
    ensures step.outcome.Ok? ==>
      || (step.outcome.data == Request(actor, target, SendStatus(name).value) && step.ledger == rs + [step.outcome.data])
      || (exists i :: 0 <= i < |rs| && Between(rs[i], actor, target) &&
            step.outcome.data == rs[i].(status := SendStatus(name).value) && step.ledger == rs[i := step.outcome.data])
  {
    match SendStatus(name)
    case None => Step(BadRequest(InvalidStatus(name)), rs)
    case Some(s) =>
      match FindOne(rs, PairFilter(actor, target))
      case Some(i) =>
        if rs[i].status == s then Step(BadRequest(AlreadyMarked(s)), rs)
        else if rs[i].status == Ignore && s == Interested then Step(BadRequest(InterestedAfterIgnore), rs)
        else Saved(Overwritten(rs, i, ToDoc(rs[i].(status := s))))
      case None => Saved(Created(rs, ToDoc(Request(actor, target, s))))
  }

  /** POST /review/:status/:requestedUserId by `actor`. */
  function ReviewStep(rs: seq<Request>, actor: UserId, requester: UserId, name: string): (step: Step)
    ensures ReviewStatus(name).None? ==> step.outcome == BadRequest(InvalidReviewStatus(name))
    ensures !step.outcome.Ok? ==> step.ledger == rs
    ensures step.outcome.Ok? ==>
      && step.outcome.data == Request(requester, actor, ReviewStatus(name).value)
      && exists i :: 0 <= i < |rs| && rs[i] == Request(requester, actor, Interested) &&
           step.ledger == rs[i := step.outcome.data]
  {
    match ReviewStatus(name)
    case None => Step(BadRequest(InvalidReviewStatus(name)), rs)
    case Some(s) =>
      match FindOne(rs, PendingFilter(requester, actor))
      case None => Step(NotFound(NoPendingRequest), rs)
      case Some(i) => Saved(Overwritten(rs, i, ToDoc(rs[i].(status := s))))
  }

  /** GET /received: the interested requests addressed to `u`, in ledger order. */
  function Received(rs: seq<Request>, u: UserId): (incoming: seq<Request>)
    ensures forall r :: r in incoming <==> r in rs && r.toUserId == u && r.status == Interested
  {
    Find(rs, IncomingFilter(u))
  }

  /** The user on the other side of `r` from `u`. */
  function OtherParty(r: Request, u: UserId): UserId
  {
    if r.fromUserId == u then r.toUserId else r.fromUserId
  }

  /** Each accepted request in `accepted`, replaced by its party other than `u`. */
  function OtherParties(accepted: seq<Request>, u: UserId): seq<UserId>
  {
    seq(|accepted|, i requires 0 <= i < |accepted| => OtherParty(accepted[i], u))
  }

  lemma OtherPartiesMembers(accepted: seq<Request>, u: UserId)
    ensures forall v :: v in OtherParties(accepted, u) <==> exists r :: r in accepted && OtherParty(r, u) == v
  {
    var others := OtherParties(accepted, u);
    forall v | exists r :: r in accepted && OtherParty(r, u) == v
      ensures v in others
    {
      var r :| r in accepted && OtherParty(r, u) == v;
      var i :| 0 <= i < |accepted| && accepted[i] == r;
      assert others[i] == v;
    }
  }

  /** GET /connections: for every accepted request involving `u`, the other user. */
  function Connections(rs: seq<Request>, u: UserId): (friends: seq<UserId>)
    ensures forall v :: v in friends <==>
      exists r :: r in rs && r.status == Accept &&
        ((r.fromUserId == u && r.toUserId == v) || (r.toUserId == u && r.fromUserId == v))
  {
    var accepted := Find(rs, AcceptedFilter(u));
    OtherPartiesMembers(accepted, u);
    OtherParties(accepted, u)
  }

  // ---------------------------------------------------------------------
  // send
  // ---------------------------------------------------------------------

  /** Every refusal of `send` leaves the ledger as it was; an unknown status is a 400. */
  lemma SendErrorsChangeNothing(rs: seq<Request>, actor: UserId, target: UserId, name: string)
    ensures !SendStep(rs, actor, target, name).outcome.Ok? ==> SendStep(rs, actor, target, name).ledger == rs
    ensures SendStatus(name).None? ==> SendStep(rs, actor, target, name) == Step(BadRequest(InvalidStatus(name)), rs)
  {
  }

  /**
   * With a record between the two users (the earliest one, if there were
   * several), `send` refuses a repeat of its status and `interested` after
   * `ignore`; any other status overwrites that record's status in place,
   * keeping its direction, adding nothing and touching no other record.
   */
  lemma SendWithExistingRecord(rs: seq<Request>, actor: UserId, target: UserId, name: string, j: nat)
    requires NoSelfRequests(rs)
    requires SendStatus(name).Some?
    requires j < |rs| && Between(rs[j], actor, target)
    requires forall k :: 0 <= k < j ==> !Between(rs[k], actor, target)
    ensures var s := SendStatus(name).value;
      SendStep(rs, actor, target, name) ==
        if rs[j].status == s then Step(BadRequest(AlreadyMarked(s)), rs)
        else if rs[j].status == Ignore && s == Interested then Step(BadRequest(InterestedAfterIgnore), rs)
        else Step(Ok(rs[j].(status := s)), rs[j := rs[j].(status := s)])
  {
    var s := SendStatus(name).value;
    var found := FindOne(rs, PairFilter(actor, target));
    assert found == Some(j);
    PersistRequest(rs[j].(status := s));
  }

  /** In a ledger that keeps one record per pair, the record between two users is the earliest. */
  lemma UniquePairIsEarliest(rs: seq<Request>, actor: UserId, target: UserId, j: nat)
    requires PairsUnique(rs)
    requires j < |rs| && Between(rs[j], actor, target)
    ensures forall k :: 0 <= k < j ==> !Between(rs[k], actor, target)
  {
    forall k | 0 <= k < j
      ensures !Between(rs[k], actor, target)
    {
      assert !SamePair(rs[k], rs[j]);
    }
  }

  /**
   * With no record between the two users, `send` appends exactly one record
   * from the actor to the target, unless they are the same user: then the
   * pre-save hook refuses it and nothing is written.
   */
  lemma SendWithoutRecord(rs: seq<Request>, actor: UserId, target: UserId, name: string)
    requires SendStatus(name).Some?
    requires forall k :: 0 <= k < |rs| ==> !Between(rs[k], actor, target)
    ensures var created := Request(actor, target, SendStatus(name).value);
      SendStep(rs, actor, target, name) ==
        if actor == target then Step(ServerError(SaveFailed(SelfConnection)), rs)
        else Step(Ok(created), rs + [created])
  {
    PersistRequest(Request(actor, target, SendStatus(name).value));
  }

  /** Sending to oneself never persists anything. */
  lemma SendToSelfRefused(rs: seq<Request>, u: UserId, name: string)
    requires NoSelfRequests(rs)
    requires SendStatus(name).Some?
    ensures SendStep(rs, u, u, name) == Step(ServerError(SaveFailed(SelfConnection)), rs)
  {
    forall k | 0 <= k < |rs|
      ensures !Between(rs[k], u, u)
    {
    }
    SendWithoutRecord(rs, u, u, name);
  }

  /** `send` keeps both ledger invariants: no self-requests, and one record per pair. */
  lemma SendPreservesInvariants(rs: seq<Request>, actor: UserId, target: UserId, name: string)
    requires NoSelfRequests(rs)
    ensures NoSelfRequests(SendStep(rs, actor, target, name).ledger)
    ensures PairsUnique(rs) ==> PairsUnique(SendStep(rs, actor, target, name).ledger)
  {
    var after := SendStep(rs, actor, target, name).ledger;
    if SendStatus(name).Some? {
      var s := SendStatus(name).value;
      match FindOne(rs, PairFilter(actor, target))
      case Some(i) =>
        PersistRequest(rs[i].(status := s));
        assert after == rs || after == rs[i := rs[i].(status := s)];
        if PairsUnique(rs) && after != rs {
          forall p, q | 0 <= p < q < |after|
            ensures !SamePair(after[p], after[q])
          {
            assert !SamePair(rs[p], rs[q]);
          }
        }
      case None =>
        var created := Request(actor, target, s);
        PersistRequest(created);
        if PairsUnique(rs) && actor != target {
          assert after == rs + [created];
          forall p, q | 0 <= p < q < |after|
            ensures !SamePair(after[p], after[q])
          {
            if q < |rs| {
              assert !SamePair(rs[p], rs[q]);
            } else {
              assert !Between(rs[p], actor, target);
            }
          }
        }
    }
  }

  // ---------------------------------------------------------------------
  // review
  // ---------------------------------------------------------------------

  /**
   * `review` with a valid status succeeds exactly when an interested request
   * from `requester` to `actor` exists; it then sets the earliest such record
   * to the new status and changes nothing else. Otherwise it is a 404 and the
   * ledger is unchanged; an invalid status is a 400 with the ledger unchanged.
   */
  lemma ReviewOutcome(rs: seq<Request>, actor: UserId, requester: UserId, name: string)
    requires NoSelfRequests(rs)
    ensures ReviewStatus(name).None? ==>
      ReviewStep(rs, actor, requester, name) == Step(BadRequest(InvalidReviewStatus(name)), rs)
    ensures ReviewStatus(name).Some? && Request(requester, actor, Interested) !in rs ==>
      ReviewStep(rs, actor, requester, name) == Step(NotFound(NoPendingRequest), rs)
    ensures ReviewStatus(name).Some? && Request(requester, actor, Interested) in rs ==>
      exists i :: 0 <= i < |rs| && rs[i] == Request(requester, actor, Interested) &&
        (forall k :: 0 <= k < i ==> rs[k] != Request(requester, actor, Interested)) &&
        ReviewStep(rs, actor, requester, name) ==
          Step(Ok(Request(requester, actor, ReviewStatus(name).value)),
               rs[i := Request(requester, actor, ReviewStatus(name).value)])
  {
    var pending := Request(requester, actor, Interested);
    if ReviewStatus(name).Some? && pending in rs {
      var s := ReviewStatus(name).value;
      var found := FindOne(rs, PendingFilter(requester, actor));
      var i := found.value;
      assert rs[i] == pending;
      PersistRequest(pending.(status := s));
    }
  }

  /** `review` keeps both ledger invariants. */
  lemma ReviewPreservesInvariants(rs: seq<Request>, actor: UserId, requester: UserId, name: string)
    requires NoSelfRequests(rs)
    ensures NoSelfRequests(ReviewStep(rs, actor, requester, name).ledger)
    ensures PairsUnique(rs) ==> PairsUnique(ReviewStep(rs, actor, requester, name).ledger)
  {
    ReviewOutcome(rs, actor, requester, name);
    var after := ReviewStep(rs, actor, requester, name).ledger;
    if after != rs {
      var i :| 0 <= i < |rs| && rs[i] == Request(requester, actor, Interested) &&
        after == rs[i := Request(requester, actor, ReviewStatus(name).value)];
      if PairsUnique(rs) {
        forall p, q | 0 <= p < q < |after|
          ensures !SamePair(after[p], after[q])
        {
          assert !SamePair(rs[p], rs[q]);
        }
      }
    }
  }

  /** A request once reviewed cannot be reviewed again: the second review is a 404. */
  lemma ReviewTwiceNotFound(rs: seq<Request>, actor: UserId, requester: UserId, first: string, second: string)
    requires NoSelfRequests(rs) && PairsUnique(rs)
    requires ReviewStep(rs, actor, requester, first).outcome.Ok?
    requires ReviewStatus(second).Some?
    ensures var after := ReviewStep(rs, actor, requester, first).ledger;
      ReviewStep(after, actor, requester, second) == Step(NotFound(NoPendingRequest), after)
  {
    var pending := Request(requester, actor, Interested);
    ReviewOutcome(rs, actor, requester, first);
    ReviewPreservesInvariants(rs, actor, requester, first);
    var after := ReviewStep(rs, actor, requester, first).ledger;
    var i :| 0 <= i < |rs| && rs[i] == pending &&
      after == rs[i := Request(requester, actor, ReviewStatus(first).value)];
    forall k | 0 <= k < |after|
      ensures after[k] != pending
    {
      if k != i {
        if k < i {
          assert !SamePair(rs[k], rs[i]);
        } else {
          assert !SamePair(rs[i], rs[k]);
        }
      }
    }
    ReviewOutcome(after, actor, requester, second);
  }

  /** A user cannot review their own outgoing request. */
  lemma OwnRequestNotReviewable(rs: seq<Request>, actor: UserId, target: UserId, name: string, j: nat)
    requires NoSelfRequests(rs) && PairsUnique(rs)
    requires j < |rs| && rs[j] == Request(actor, target, Interested)
    requires ReviewStatus(name).Some?
    ensures ReviewStep(rs, actor, target, name) == Step(NotFound(NoPendingRequest), rs)
  {
    forall k | 0 <= k < |rs|
      ensures rs[k] != Request(target, actor, Interested)
    {
      if k < j {
        assert !SamePair(rs[k], rs[j]);
      } else if k > j {
        assert !SamePair(rs[j], rs[k]);
      }
    }
    ReviewOutcome(rs, actor, target, name);
  }

  /** `review` succeeds exactly on a requester whose request sits in the actor's `received` list. */
  lemma ReviewMatchesReceived(rs: seq<Request>, actor: UserId, requester: UserId, name: string)
    requires NoSelfRequests(rs)
    requires ReviewStatus(name).Some?
    ensures ReviewStep(rs, actor, requester, name).outcome.Ok? <==>
      exists r :: r in Received(rs, actor) && r.fromUserId == requester
  {
    ReviewOutcome(rs, actor, requester, name);
    if exists r :: r in Received(rs, actor) && r.fromUserId == requester {
      var r :| r in Received(rs, actor) && r.fromUserId == requester;
      assert r == Request(requester, actor, Interested);
    }
    if ReviewStep(rs, actor, requester, name).outcome.Ok? {
      assert Request(requester, actor, Interested) in Received(rs, actor);
    }
  }

  // ---------------------------------------------------------------------
  // received and connections
  // ---------------------------------------------------------------------

  /** `received` lists requests in ledger order: one added last is listed last. */
  lemma ReceivedInLedgerOrder(rs: seq<Request>, x: Request, u: UserId)
    ensures Received(rs + [x], u) ==
      Received(rs, u) + (if x.toUserId == u && x.status == Interested then [x] else [])
  {
    FindAppend(rs, x, IncomingFilter(u));
  }

  /** Being connected is symmetric. */
  lemma ConnectionsSymmetric(rs: seq<Request>, u: UserId, v: UserId)
    ensures v in Connections(rs, u) <==> u in Connections(rs, v)
  {
    if v in Connections(rs, u) {
      var r :| r in rs && r.status == Accept &&
        ((r.fromUserId == u && r.toUserId == v) || (r.toUserId == u && r.fromUserId == v));
      assert u in Connections(rs, v);
    }
    if u in Connections(rs, v) {
      var r :| r in rs && r.status == Accept &&
        ((r.fromUserId == v && r.toUserId == u) || (r.toUserId == v && r.fromUserId == u));
      assert v in Connections(rs, u);
    }
  }

  /** No user is listed among their own connections. */
  lemma ConnectionsExcludeSelf(rs: seq<Request>, u: UserId)
    requires NoSelfRequests(rs)
    ensures u !in Connections(rs, u)
  {
  }

  lemma ConnectionsCons(rs: seq<Request>, u: UserId)
    requires rs != []
    ensures Connections(rs, u) ==
      (if Matches(AcceptedFilter(u), rs[0]) then [OtherParty(rs[0], u)] else []) + Connections(rs[1..], u)
  {
    var rest := Find(rs[1..], AcceptedFilter(u));
    var head := if Matches(AcceptedFilter(u), rs[0]) then [rs[0]] else [];
    assert Find(rs, AcceptedFilter(u)) == head + rest;
    assert OtherParties(head + rest, u) == OtherParties(head, u) + OtherParties(rest, u);
  }

  /** With one record per pair, nobody is listed twice among a user's connections. */
  lemma {:induction false} ConnectionsDistinct(rs: seq<Request>, u: UserId)
    requires PairsUnique(rs)
    ensures forall i, j :: 0 <= i < j < |Connections(rs, u)| ==> Connections(rs, u)[i] != Connections(rs, u)[j]
    decreases |rs|
  {
    if rs != [] {
      var tail := rs[1..];
      assert PairsUnique(tail) by {
        forall p, q | 0 <= p < q < |tail|
          ensures !SamePair(tail[p], tail[q])
        {
          assert !SamePair(rs[p + 1], rs[q + 1]);
        }
      }
      ConnectionsDistinct(tail, u);
      ConnectionsCons(rs, u);
    }
  }

  // ---------------------------------------------------------------------
  // Scenarios
  // ---------------------------------------------------------------------

  /** A sends interest to B, B accepts: each lists the other; a second review is a 404. */
  lemma AcceptScenario(a: UserId, b: UserId)
    requires a != b
    ensures SendStep([], a, b, "interested") ==
      Step(Ok(Request(a, b, Interested)), [Request(a, b, Interested)])
    ensures Received([Request(a, b, Interested)], b) == [Request(a, b, Interested)]
    ensures ReviewStep([Request(a, b, Interested)], b, a, "accept") ==
      Step(Ok(Request(a, b, Accept)), [Request(a, b, Accept)])
    ensures Connections([Request(a, b, Accept)], a) == [b]
    ensures Connections([Request(a, b, Accept)], b) == [a]
    ensures ReviewStep([Request(a, b, Accept)], b, a, "accept") ==
      Step(NotFound(NoPendingRequest), [Request(a, b, Accept)])
  {
    SendWithoutRecord([], a, b, "interested");
    ReviewOutcome([Request(a, b, Interested)], b, a, "accept");
    ReviewOutcome([Request(a, b, Accept)], b, a, "accept");
    var accepted := [Request(a, b, Accept)];
    assert Find(accepted, AcceptedFilter(a)) == accepted;
    assert Find(accepted, AcceptedFilter(b)) == accepted;
    var incoming := [Request(a, b, Interested)];
    assert Find(incoming, IncomingFilter(b)) == incoming;
  }

  /**
   * Ignoring blocks later interest from either side, while interest can be
   * withdrawn into ignore.
   */
  lemma IgnoreScenario(a: UserId, b: UserId)
    requires a != b
    ensures SendStep([], a, b, "ignore") == Step(Ok(Request(a, b, Ignore)), [Request(a, b, Ignore)])
    ensures SendStep([Request(a, b, Ignore)], a, b, "interested") ==
      Step(BadRequest(InterestedAfterIgnore), [Request(a, b, Ignore)])
    ensures SendStep([Request(a, b, Ignore)], b, a, "interested") ==
      Step(BadRequest(InterestedAfterIgnore), [Request(a, b, Ignore)])
    ensures SendStep([Request(a, b, Interested)], a, b, "ignore") ==
      Step(Ok(Request(a, b, Ignore)), [Request(a, b, Ignore)])
  {
    SendWithoutRecord([], a, b, "ignore");
    SendWithExistingRecord([Request(a, b, Ignore)], a, b, "interested", 0);
    SendWithExistingRecord([Request(a, b, Ignore)], b, a, "interested", 0);
    SendWithExistingRecord([Request(a, b, Interested)], a, b, "ignore", 0);
  }

  /**
   * After B accepted A, B sending "interested" to A reopens the record but
   * keeps its direction: it is again a request from A, pending in B's own
   * `received` list, and the connection is gone.
   */
  lemma ReopenScenario(a: UserId, b: UserId)
    requires a != b
    ensures SendStep([Request(a, b, Accept)], b, a, "interested") ==
      Step(Ok(Request(a, b, Interested)), [Request(a, b, Interested)])
    ensures Received([Request(a, b, Interested)], b) == [Request(a, b, Interested)]
    ensures Received([Request(a, b, Interested)], a) == []
    ensures Connections([Request(a, b, Interested)], a) == []
  {
    SendWithExistingRecord([Request(a, b, Accept)], b, a, "interested", 0);
    var pending := [Request(a, b, Interested)];
    assert Find(pending, IncomingFilter(b)) == pending;
    assert Find(pending, IncomingFilter(a)) == [];
    assert Find(pending, AcceptedFilter(a)) == [];
  }

  // ---------------------------------------------------------------------
  // The route handlers, acting on the collection
  // ---------------------------------------------------------------------

  method Send(ledger: Collection, actor: UserId, target: UserId, statusName: string) returns (out: Outcome)
    requires ledger.Valid()
    modifies ledger
    ensures ledger.Valid()
    ensures Step(out, ledger.records) == SendStep(old(ledger.records), actor, target, statusName)
    ensures old(PairsUnique(ledger.records)) ==> PairsUnique(ledger.records)
  {
    ghost var before := ledger.records;
    SendPreservesInvariants(before, actor, target, statusName);
    var status := SendStatus(statusName);
    if status.None? {
      return BadRequest(InvalidStatus(statusName));
    }
    var s := status.value;
    var existing := FindOne(ledger.records, PairFilter(actor, target));
    if existing.Some? {
      var current := ledger.records[existing.value];
      if current.status == s {
        return BadRequest(AlreadyMarked(s));
      }
      if current.status == Ignore && s == Interested {
        return BadRequest(InterestedAfterIgnore);
      }
      var saved := ledger.Overwrite(existing.value, ToDoc(current.(status := s)));
      out := Reply(saved);
    } else {
      var saved := ledger.Create(ToDoc(Request(actor, target, s)));
      out := Reply(saved);
    }
  }

  method Review(ledger: Collection, actor: UserId, requester: UserId, statusName: string) returns (out: Outcome)
    requires ledger.Valid()
    modifies ledger
    ensures ledger.Valid()
    ensures Step(out, ledger.records) == ReviewStep(old(ledger.records), actor, requester, statusName)
    ensures old(PairsUnique(ledger.records)) ==> PairsUnique(ledger.records)
  {
    ghost var before := ledger.records;
    ReviewPreservesInvariants(before, actor, requester, statusName);
    var status := ReviewStatus(statusName);
    if status.None? {
      return BadRequest(InvalidReviewStatus(statusName));
    }
    var existing := FindOne(ledger.records, PendingFilter(requester, actor));
    if existing.None? {
      return NotFound(NoPendingRequest);
    }
    var current := ledger.records[existing.value];
    var saved := ledger.Overwrite(existing.value, ToDoc(current.(status := status.value)));
    out := Reply(saved);
  }

  /** The reply to a save: the stored record, or a server error for a refused save. */
  function Reply(saved: Result<Request, SaveError>): (out: Outcome)
    ensures saved.Success? ==> out == Ok(saved.value)
    ensures saved.Failure? ==> out == ServerError(SaveFailed(saved.error))
  {
    match saved
    case Success(r) => Ok(r)
    case Failure(e) => ServerError(SaveFailed(e))
  }
}
