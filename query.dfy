/**
 * The store's query semantics for connection requests. A filter is a
 * disjunction (`$or`) of clauses; each clause fixes some of the three fields.
 * `FindOne` yields the first matching record in the collection's order and
 * `Find` all matching records in that order.
 */
module Query {
  import opened Wrappers
  import opened ConnectionRequest

  datatype Clause = Clause(fromUserId: Option<UserId>, toUserId: Option<UserId>, status: Option<Status>)

  type Filter = seq<Clause>

  predicate ClauseMatches(c: Clause, r: Request)
  {
    && (c.fromUserId.None? || c.fromUserId.value == r.fromUserId)
    && (c.toUserId.None? || c.toUserId.value == r.toUserId)
    && (c.status.None? || c.status.value == r.status)
  }

  predicate Matches(f: Filter, r: Request)
  {
    exists k :: 0 <= k < |f| && ClauseMatches(f[k], r)
  }

  /** The index of the first record matching `f`, if any. */
  function FindOne(rs: seq<Request>, f: Filter): (found: Option<nat>)
    ensures found.Some? ==> found.value < |rs| && Matches(f, rs[found.value])
    ensures found.Some? ==> forall j :: 0 <= j < found.value ==> !Matches(f, rs[j])
    ensures found.None? <==> forall j :: 0 <= j < |rs| ==> !Matches(f, rs[j])
    decreases |rs|
  {
    if rs == [] then None
    else if Matches(f, rs[0]) then Some(0)
    else
      match FindOne(rs[1..], f)
      case None => None
      case Some(k) => Some(k + 1)
  }

  /** The records matching `f`, in the collection's order. */
  function Find(rs: seq<Request>, f: Filter): (found: seq<Request>)
    ensures |found| <= |rs|
    ensures forall r :: r in found <==> r in rs && Matches(f, r)
    decreases |rs|
  {
    if rs == [] then []
    else
      var rest := Find(rs[1..], f);
      assert forall r :: r in rs <==> r == rs[0] || r in rs[1..];
      if Matches(f, rs[0]) then [rs[0]] + rest else rest
  }

  /** `Find` keeps the collection's order: a record added last is found last. */
  lemma {:induction false} FindAppend(rs: seq<Request>, x: Request, f: Filter)
    ensures Find(rs + [x], f) == Find(rs, f) + (if Matches(f, x) then [x] else [])
    decreases |rs|
  {
    if rs == [] {
      assert [x][1..] == [];
    } else {
      assert (rs + [x])[0] == rs[0];
      assert (rs + [x])[1..] == rs[1..] + [x];
      FindAppend(rs[1..], x, f);
    }
  }
}
