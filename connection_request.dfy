/**
 * The ConnectionRequest model: the record schema (two required user ids and a
 * required status drawn from a four-value enum), the pre-save hook that refuses
 * a request from a user to themself, and the collection the records live in.
 *
 * Every write goes through `Persist`: schema validation first, then the
 * self-connection guard, as the document store runs them on each save.
 */
module ConnectionRequest {
  import opened Wrappers

  /** A user's identifier (an ObjectId in the store); only equality matters. */
  type UserId = nat

  datatype Status = Ignore | Interested | Accept | Reject

  /** The string the store keeps for each status. */
  function StatusName(s: Status): string
  {
    match s
    case Ignore => "ignore"
    case Interested => "interested"
    case Accept => "accept"
    case Reject => "reject"
  }

  /** The enum check: a string names a status exactly when it is one of the four names. */
  function ParseStatus(name: string): (r: Option<Status>)
    ensures r.Some? ==> StatusName(r.value) == name
    ensures r.None? ==> forall s :: StatusName(s) != name
  {
    if name == "ignore" then Some(Ignore)
    else if name == "interested" then Some(Interested)
    else if name == "accept" then Some(Accept)
    else if name == "reject" then Some(Reject)
    else None
  }

  lemma ParseStatusName(s: Status)
    ensures ParseStatus(StatusName(s)) == Some(s)
  {
  }

  /** A persisted connection request: directed from one user to another. */
  datatype Request = Request(fromUserId: UserId, toUserId: UserId, status: Status)

  /** A document as handed to the store, before validation: any field may be missing. */
  datatype Doc = Doc(fromUserId: Option<UserId>, toUserId: Option<UserId>, status: Option<string>)

  datatype Path = FromUserIdPath | ToUserIdPath | StatusPath

  datatype FieldError = Required(path: Path) | NotInEnum(value: string)

  datatype SaveError = Invalid(errors: seq<FieldError>) | SelfConnection

  function ToDoc(r: Request): Doc
  {
    Doc(Some(r.fromUserId), Some(r.toUserId), Some(StatusName(r.status)))
  }

  /**
   * Schema validation, one error per failing path in schema order. A required
   * string is missing when absent or empty; a present status must name an enum value.
   */
  function Validate(doc: Doc): (errors: seq<FieldError>)
    ensures errors == [] <==>
      doc.fromUserId.Some? && doc.toUserId.Some? && doc.status.Some? && ParseStatus(doc.status.value).Some?
    ensures Required(FromUserIdPath) in errors <==> doc.fromUserId.None?
    ensures Required(ToUserIdPath) in errors <==> doc.toUserId.None?
  {
    (if doc.fromUserId.None? then [Required(FromUserIdPath)] else []) +
    (if doc.toUserId.None? then [Required(ToUserIdPath)] else []) +
    (match doc.status
     case None => [Required(StatusPath)]
     case Some(v) =>
       if v == "" then [Required(StatusPath)]
       else if ParseStatus(v).None? then [NotInEnum(v)]
       else [])
  }

  /** The pre-save hook: a request from a user to themself is refused. */
  function PreSave(r: Request): (res: Result<Request, SaveError>)
    ensures res.Failure? <==> r.fromUserId == r.toUserId
    ensures res.Failure? ==> res.error == SelfConnection
    ensures res.Success? ==> res.value == r
  {
    if r.fromUserId == r.toUserId then Failure(SelfConnection) else Success(r)
  }

  /** What saving a document yields: validation, then the pre-save hook. */
  function Persist(doc: Doc): (res: Result<Request, SaveError>)
    ensures res.Success? <==> Validate(doc) == [] && doc.fromUserId.value != doc.toUserId.value
    ensures res.Success? ==> ToDoc(res.value) == doc && res.value.fromUserId != res.value.toUserId
    ensures res == Failure(SelfConnection) <==> Validate(doc) == [] && doc.fromUserId.value == doc.toUserId.value
  {
    var errors := Validate(doc);
    if errors != [] then Failure(Invalid(errors))
    else
      var r := Request(doc.fromUserId.value, doc.toUserId.value, ParseStatus(doc.status.value).value);
      assert ToDoc(r) == doc by { ParseStatusName(r.status); }
      PreSave(r)
  }

  /** A well-formed record is stored as itself unless it is a self-request. */
  lemma PersistRequest(r: Request)
    ensures Persist(ToDoc(r)) == if r.fromUserId == r.toUserId then Failure(SelfConnection) else Success(r)
  {
    ParseStatusName(r.status);
    assert Validate(ToDoc(r)) == [];
  }

  /** The invariant the pre-save hook keeps: no stored record is a self-request. */
  predicate NoSelfRequests(rs: seq<Request>)
  {
    forall i :: 0 <= i < |rs| ==> rs[i].fromUserId != rs[i].toUserId
  }

  /** `r` is a record between `a` and `b`, in either direction. */
  predicate Between(r: Request, a: UserId, b: UserId)
  {
    (r.fromUserId == a && r.toUserId == b) || (r.fromUserId == b && r.toUserId == a)
  }

  /** Two records concern the same unordered pair of users. */
  predicate SamePair(r1: Request, r2: Request)
  {
    Between(r2, r1.fromUserId, r1.toUserId)
  }

  /**
   * At most one record per unordered pair. The index on (fromUserId, toUserId)
   * is not unique, so the store does not enforce this; only the routes keep it.
   */
  predicate PairsUnique(rs: seq<Request>)
  {
    forall i, j :: 0 <= i < j < |rs| ==> !SamePair(rs[i], rs[j])
  }

  /** Saving a new document: appended when it persists, nothing written otherwise. */
  function Created(rs: seq<Request>, doc: Doc): (w: (seq<Request>, Result<Request, SaveError>))
    ensures w.1 == Persist(doc)
    ensures w.1.Success? ==> w.0 == rs + [w.1.value]
    ensures w.1.Failure? ==> w.0 == rs
  {
    match Persist(doc)
    case Success(r) => (rs + [r], Success(r))
    case Failure(e) => (rs, Failure(e))
  }

  /** Saving the document already stored at index `i`: replaced in place when it persists. */
  function Overwritten(rs: seq<Request>, i: nat, doc: Doc): (w: (seq<Request>, Result<Request, SaveError>))
    requires i < |rs|
    ensures w.1 == Persist(doc)
    ensures w.1.Success? ==> w.0 == rs[i := w.1.value]
    ensures w.1.Failure? ==> w.0 == rs
  {
    match Persist(doc)
    case Success(r) => (rs[i := r], Success(r))
    case Failure(e) => (rs, Failure(e))
  }

  /** Creating runs the guard, so it cannot break NoSelfRequests. */
  lemma CreateKeepsNoSelfRequests(rs: seq<Request>, doc: Doc)
    requires NoSelfRequests(rs)
    ensures NoSelfRequests(Created(rs, doc).0)
  {
  }

  /** Overwriting runs the guard too, so status updates cannot break NoSelfRequests either. */
  lemma OverwriteKeepsNoSelfRequests(rs: seq<Request>, i: nat, doc: Doc)
    requires NoSelfRequests(rs) && i < |rs|
    ensures NoSelfRequests(Overwritten(rs, i, doc).0)
  {
  }

  /**
   * The store accepts any valid non-self record whatever the ledger holds: a
   * record for a pair that already has one is appended all the same.
   */
  lemma {:induction false} StoreAcceptsDuplicatePairs(rs: seq<Request>, r: Request)
    requires r.fromUserId != r.toUserId
    ensures Created(rs, ToDoc(r)) == (rs + [r], Success(r))
    ensures (exists k :: 0 <= k < |rs| && SamePair(rs[k], r)) ==> !PairsUnique(rs + [r])
  {
    PersistRequest(r);
    if exists k :: 0 <= k < |rs| && SamePair(rs[k], r) {
      var k :| 0 <= k < |rs| && SamePair(rs[k], r);
      var both := rs + [r];
      assert both[k] == rs[k] && both[|rs|] == r;
      assert SamePair(both[k], both[|rs|]);
    }
  }

  /** The collection of connection requests, in the store's natural order. */
  class Collection {
    var records: seq<Request>

    ghost predicate Valid()
      reads this
    {
      NoSelfRequests(records)
    }

    constructor ()
      ensures Valid() && records == []
    {
      records := [];
    }

    /** `save()` on a new document. */
    method Create(doc: Doc) returns (res: Result<Request, SaveError>)
      requires Valid()
      modifies this
      ensures Valid()
      ensures (records, res) == Created(old(records), doc)
    {
      res := Persist(doc);
      if res.Success? {
        records := records + [res.value];
      }
    }

    /** `save()` on the document stored at index `i`. */
    method Overwrite(i: nat, doc: Doc) returns (res: Result<Request, SaveError>)
      requires Valid() && i < |records|
      modifies this
      ensures Valid()
      ensures (records, res) == Overwritten(old(records), i, doc)
    {
      res := Persist(doc);
      if res.Success? {
        records := records[i := res.value];
      }
    }
  }
}
