# Connection-request ledger

A model of the connection-request workflow of a small social-networking
backend (an Express application over a Mongoose document store). The ledger is
a collection of directed records `(fromUserId, toUserId, status)`, where
`status` is one of `ignore`, `interested`, `accept`, `reject`. Four routes act
on it:

- `send(actor, target, status)` for `interested` or `ignore`. It looks up a
  record between the two users in either direction. It refuses a repeat of
  that record's status, and it refuses `interested` after `ignore`. Otherwise
  it overwrites that record's status in place, keeping its direction. With no
  record, it appends `actor → target`.
- `review(actor, requester, status)` for `accept` or `reject`. It works only on
  an `interested` record `requester → actor` and updates it in place.
- `received(user)` lists the `interested` records addressed to the user.
- `connections(user)` lists the other party of every `accept` record that
  involves the user.

Files:

- `wrappers.dfy`: `Option` and `Result`.
- `connection_request.dfy` (module `ConnectionRequest`): the record schema,
  with its required fields and the status enum (`Validate`), and the pre-save
  hook that refuses self-requests (`PreSave`). `Persist` is one save: schema
  validation followed by the hook. The module has the store's two kinds of save
  (`Created`, `Overwritten`) and the class `Collection`, which holds the
  records as a `seq` and keeps the invariant that no record is a self-request.
  The module-level predicate `PairsUnique` states "at most one record per
  unordered pair".
- `query.dfy` (module `Query`): the store's filters. A filter is an `$or` of
  clauses, and each clause may fix `fromUserId`, `toUserId` and `status`.
  `FindOne` gives the first match in collection order, and `Find` gives all
  matches in that order.
- `request_routes.dfy` (module `RequestRoutes`): `SendStep` and `ReviewStep`.
  Each gives the reply and the new ledger as a function of the old ledger.
  The methods `Send` and `Review` do the same steps imperatively on a
  `Collection` and are proved to agree with them. The module also has the
  queries `Received` and `Connections`, and lemmas about all of these.

Replies are an error-kind datatype: `Ok(record)`, `BadRequest` (400),
`NotFound` (404) and `ServerError` (500), each with a reason. The caller's
user id comes from the authentication middleware, which is not part of this
model, and is an argument here.

Behaviour worth knowing before reading the contracts:

- A `send` to oneself is a 500, not a validation error. No record between a
  user and themself can exist, so `send` tries to create one. The pre-save hook
  then throws, and the route's `catch` turns that into a 500 (`ServerError`).
- `send` does not check that the target user exists or that the id is
  well-formed.
- There is no feed and no outgoing-requests route in this code.

## Model

| member | source | states |
|---|---|---|
| `ConnectionRequest.ParseStatus` | Express/src/models/connection-request.js:16-23 | A string is accepted as a status exactly when it is the name of one of the four enum values, and the result is that value |
| `ConnectionRequest.ParseStatusName` | Express/src/models/connection-request.js:16-23 | Parsing the stored name of a status gives that status back |
| `ConnectionRequest.Validate` | Express/src/models/connection-request.js:4-28 | A document has no validation errors exactly when `fromUserId`, `toUserId` and `status` are present and `status` is in the enum; each missing id is reported as a required-path error |
| `ConnectionRequest.PreSave` | Express/src/models/connection-request.js:33-38 | The hook refuses a record exactly when `fromUserId` equals `toUserId`, with the self-connection error; otherwise the record proceeds unchanged |
| `ConnectionRequest.Persist` | Express/src/models/connection-request.js:4-38 | A save succeeds exactly when validation passes and the two ids differ; the stored record is the document's content and is never a self-request; the self-connection error arises exactly for a valid document with equal ids |
| `ConnectionRequest.PersistRequest` | Express/src/models/connection-request.js:33-37 | A complete record is stored as itself when its ids differ, and refused with the self-connection error when they are equal |
| `ConnectionRequest.Created` | Express/src/routes/request.js:58-64 | Saving a new document yields `Persist`'s result; on success exactly that record is appended, on refusal nothing is written. Specified further by `CreateKeepsNoSelfRequests` and `StoreAcceptsDuplicatePairs` |
| `ConnectionRequest.Overwritten` | Express/src/routes/request.js:49-50 | Saving the stored document at index i yields `Persist`'s result; on success only position i is replaced, on refusal nothing is written. Specified further by `OverwriteKeepsNoSelfRequests` |
| `ConnectionRequest.CreateKeepsNoSelfRequests` | Express/src/models/connection-request.js:33-38 | Because the hook runs on every save, creating a record, the empty ledger included, keeps "no record is a self-request" |
| `ConnectionRequest.OverwriteKeepsNoSelfRequests` | Express/src/models/connection-request.js:33-38 | Because the hook also runs when a status is updated, overwriting a record keeps "no record is a self-request" |
| `ConnectionRequest.StoreAcceptsDuplicatePairs` | Express/src/models/connection-request.js:30 | The non-unique index lets the store append any valid non-self record, even one for a pair that already has a record, and that breaks one-record-per-pair |
| `ConnectionRequest.Collection.constructor` | Express/src/models/connection-request.js:40-43 | A fresh collection is empty and satisfies the invariant |
| `ConnectionRequest.Collection.Create` | Express/src/routes/request.js:58-64 | Saving a new document appends exactly the persisted record, or leaves the collection unchanged when the save is refused; the invariant is kept |
| `ConnectionRequest.Collection.Overwrite` | Express/src/routes/request.js:49-50 | Saving the document at index i replaces only position i with the persisted record, or changes nothing when refused; the invariant is kept |
| `Query.FindOne` | Express/src/routes/request.js:26-34 | The result is the index of the first record in collection order that matches the filter, and it is absent exactly when no record matches |
| `Query.Find` | Express/src/routes/request.js:129-132 | The result holds exactly the records that match the filter and is no longer than the collection |
| `Query.FindAppend` | Express/src/routes/request.js:129-132 | Results keep collection order: a record added last appears last, if it matches |
| `RequestRoutes.SendStatus` | Express/src/routes/request.js:18-19 | `send` accepts exactly the names `interested` and `ignore`, and each maps to its status |
| `RequestRoutes.ReviewStatus` | Express/src/routes/request.js:88-89 | `review` accepts exactly the names `accept` and `reject`, and each maps to its status |
| `RequestRoutes.PairFilter` | Express/src/routes/request.js:26-34 | The `$or` lookup of `send` matches exactly the records between the two users, in either direction |
| `RequestRoutes.PendingFilter` | Express/src/routes/request.js:96-100 | The lookup of `review` matches exactly the record `requester → actor` with status `interested` |
| `RequestRoutes.IncomingFilter` | Express/src/routes/request.js:129-132 | The `received` query matches exactly the records addressed to the user with status `interested` |
| `RequestRoutes.AcceptedFilter` | Express/src/routes/request.js:152-157 | The `connections` query matches exactly the `accept` records with the user on either side |
| `RequestRoutes.Received` | Express/src/routes/request.js:126-145 | The incoming list holds exactly the ledger's records with `toUserId` equal to the user and status `interested` |
| `RequestRoutes.Connections` | Express/src/routes/request.js:148-177 | A user v is listed exactly when some `accept` record has the user on one side and v on the other |
| `RequestRoutes.Reply` | Express/src/routes/request.js:50-54 | A successful save is replied to with the stored record; a refused save becomes a server error carrying the save's error |
| `RequestRoutes.SendStep` | Express/src/routes/request.js:10-77 | An unknown status is a 400; every failure leaves the ledger unchanged; a success either appends `actor → target` with the requested status or changes only the status of one record between the two users. Specified in full by `SendErrorsChangeNothing`, `SendWithExistingRecord` and `SendWithoutRecord` |
| `RequestRoutes.ReviewStep` | Express/src/routes/request.js:80-123 | An unknown status is a 400; every failure leaves the ledger unchanged; a success replaces one `interested` record `requester → actor` by the same record with the new status and returns it. Specified in full by `ReviewOutcome` |
| `RequestRoutes.SendErrorsChangeNothing` | Express/src/routes/request.js:18-47 | Every unsuccessful `send` leaves the ledger unchanged, and a status other than `interested`/`ignore` is a 400 |
| `RequestRoutes.SendWithExistingRecord` | Express/src/routes/request.js:26-54 | With an earliest record between the two users: a repeat of its status is a 400, `interested` after `ignore` is a 400, both leave the ledger unchanged, and any other status replaces only that record's status (direction kept, nothing added, nothing else changed) and is returned |
| `RequestRoutes.UniquePairIsEarliest` | Express/src/routes/request.js:26-34 | In a ledger with one record per pair, the record between two users is the one the lookup finds |
| `RequestRoutes.SendWithoutRecord` | Express/src/routes/request.js:57-69 | With no record between the two users, `send` appends exactly `actor → target` with the requested status, unless actor equals target: then the save fails with the self-connection error and nothing is appended |
| `RequestRoutes.SendToSelfRefused` | Express/src/models/connection-request.js:33-36 | In a valid ledger, a `send` to oneself with a valid status is a server error and persists nothing |
| `RequestRoutes.SendPreservesInvariants` | Express/src/routes/request.js:36-64 | `send` keeps "no self-request", and keeps "one record per pair" through its lookup-before-create |
| `RequestRoutes.ReviewOutcome` | Express/src/routes/request.js:88-115 | An invalid review status is a 400 and changes nothing; with no `interested` record `requester → actor` it is a 404 and changes nothing; otherwise the earliest such record alone gets the new status and is returned |
| `RequestRoutes.ReviewPreservesInvariants` | Express/src/routes/request.js:108-110 | `review` keeps "no self-request" and "one record per pair" |
| `RequestRoutes.ReviewTwiceNotFound` | Express/src/routes/request.js:96-106 | After a successful review, a second review of the same pair is a 404 and changes nothing |
| `RequestRoutes.OwnRequestNotReviewable` | Express/src/routes/request.js:83-106 | A user who sent an `interested` request cannot review it themself: that review is a 404 |
| `RequestRoutes.ReviewMatchesReceived` | Express/src/routes/request.js:96-132 | A review with a valid status succeeds exactly when the requester has a request in the reviewer's `received` list |
| `RequestRoutes.ReceivedInLedgerOrder` | Express/src/routes/request.js:129-132 | `received` lists requests in ledger order |
| `RequestRoutes.ConnectionsSymmetric` | Express/src/routes/request.js:152-164 | v is among u's connections exactly when u is among v's |
| `RequestRoutes.ConnectionsExcludeSelf` | Express/src/routes/request.js:161-164 | In a valid ledger no user is among their own connections |
| `RequestRoutes.ConnectionsDistinct` | Express/src/routes/request.js:152-164 | With one record per pair, nobody appears twice among a user's connections |
| `RequestRoutes.AcceptScenario` | Express/src/routes/request.js:10-177 | A sends `interested` to B, and the request appears in B's `received` list. B accepts. Each then lists the other as a connection, and a second review is a 404 |
| `RequestRoutes.IgnoreScenario` | Express/src/routes/request.js:38-54 | After `ignore`, `interested` from either side is a 400; `interested` can still be changed to `ignore` |
| `RequestRoutes.ReopenScenario` | Express/src/routes/request.js:26-54 | After B accepted A, B sending `interested` to A turns the record back into a pending request from A. That request sits in B's own `received` list, and the connection is gone |
| `RequestRoutes.Send` | Express/src/routes/request.js:10-77 | The handler's reply and new ledger are those of `SendStep`; it keeps the collection invariant and one-record-per-pair |
| `RequestRoutes.Review` | Express/src/routes/request.js:80-123 | The handler's reply and new ledger are those of `ReviewStep`; it keeps the collection invariant and one-record-per-pair |

## Left out

- The `catch` → 500 path for store and network failures, and for ids that cannot be cast to an ObjectId. The only 500 modelled is the pre-save refusal of a self-request.
- HTTP status codes and message texts. Replies are an error kind plus a reason.
- `createdAt`/`updatedAt` timestamps, the documents' own `_id`s and `populate` with its safe-field projection. Queries return records and user ids. The projection list contains `" gender"` with a stray leading space, and this model does not represent projections.
- Authentication: the actor's id is an argument.
- Concurrency: the check-then-act race between concurrent `send` calls is not modelled. Requests are sequential, and `StoreAcceptsDuplicatePairs` shows what the store would accept if the race happened.
- The order of `find` results: the store does not specify one. The model uses insertion order.
- Feed generation, pagination, an outgoing-requests route, target-existence checks and id-format checks: none of these is in the modelled code.
- User accounts, sign-up, login, profile editing and password-reset email: these are outside the connection-request core.
