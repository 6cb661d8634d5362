# Order repository over Redis — a Dafny model

This project models the order repository of `redis_service`: the `RedisRepo`
type that keeps orders in Redis. Each order is a JSON string stored at the key
`order:<id>`. A Redis set stored at `orders` indexes the keys of all stored
orders. The model is a functional state machine. The state is an immutable
`RedisStore.Store`: a map from string keys to stored values, plus the members
of the `orders` set. Each repository operation is a pure function from a state
and its inputs to a new state (for writes) and the `(value, error)` pair the
Go method returns. The model proves these properties:

- the key codec `orderIDKey` is injective and never yields the index key;
- the conditional-write rules of SETNX and SET XX hold;
- every error comes with an unchanged store;
- the position-by-position shape of a FindAll page is as stated below;
- records and index stay in agreement across any sequence of calls. This is the
  "no partial state" promise the source's comments make for its transactions.

Modules, leaves first:

- `Options`: `Option`, standing for Go's nil pointers and nil errors.
- `Model`: `Order`, `LineItem`, `Uuid`, `Timestamp` and the zero order.
  Go's `uint64` and `uint` (64-bit platform) are the subset type `U64`.
- `KeyCodec`: `OrderIdKey`, which is `"order:"` followed by the decimal digits
  of the id. It comes with its inverse `ParseOrderIdKey` and the proofs that
  the two invert each other.
- `RedisStore`: the store value and the commands used (GET, SET XX, MGET,
  and SETNX/SADD/DEL/SREM queued in a transaction). `Exec` applies every
  queued command or none.
- `Repository`: `Insert`, `FindByID`, `DeleteByID`, `Update` and `FindAll`.
- `Properties`: the invariant `Valid`, its preservation by every write and by
  any sequence of writes (`Run`), and read-after-write facts.

Everything the Go code leaves to a library or the network is an explicit
parameter:

- the JSON encoder and decoder (`Codec`, two total functions that may fail);
- whether each round trip is delivered or fails (`Wire`); a failed round trip
  is assumed to have no effect on the store;
- the SSCAN reply, as a function of the SSCAN arguments;
- whether the client reports SET XX on an absent key as `redis.Nil`
  (`nilOnAbsent`).

Three behaviours of the code are worth stating directly:

- Insert of an existing id reports success and keeps the old record. There is
  no already-exists error.
- DeleteByID of an absent id reports success once the transaction commits.
- Update of an absent id changes nothing. It reports NotExist only when the
  client maps the nil reply to `redis.Nil`.

## Model

| member | source | states |
|---|---|---|
| KeyCodec.Decimal | repository/order/redis.go:35 | `%d` of an unsigned id is a non-empty string of decimal digits that starts with '0' exactly when the id is 0 |
| KeyCodec.DecimalValue | repository/order/redis.go:35 | reading back the digits `%d` printed gives the original number |
| KeyCodec.ValueDecimal | repository/order/redis.go:35 | every canonical digit string (no leading zero) is what `%d` prints for the number it denotes |
| KeyCodec.DecimalInjective | repository/order/redis.go:35 | distinct numbers print as distinct digit strings |
| KeyCodec.OrderIdKey | repository/order/redis.go:34-36 | an order key is "order:" followed by canonical decimal digits, and it is never the index key "orders" |
| KeyCodec.KeyRoundTrip | repository/order/redis.go:34-36 | the id can be recovered from its key |
| KeyCodec.ParsedKeyIsOrderIdKey | repository/order/redis.go:34-36 | every string the key parser accepts is exactly the key of the id it yields |
| KeyCodec.OrderIdKeyInjective | repository/order/redis.go:34-36 | distinct ids never share a key, so no order overwrites another's record |
| KeyCodec.OrderKeysAreExactlyTheImage | repository/order/redis.go:34-65 | a string is an order key iff some uint64 id maps to it; the index key "orders" is not one |
| RedisStore.SetXX | repository/order/redis.go:139-140 | SET XX overwrites only an existing key, never creates one, and touches no other key or the index |
| Repository.Insert | repository/order/redis.go:39-77 | an encode failure or a failed commit returns an error with the store unchanged; otherwise success, the key joins the index, an existing record is kept and an absent one becomes the encoding; no other key changes |
| Repository.FindByID | repository/order/redis.go:79-101 | absent key gives NotExist, undecodable value gives a decode error, failed GET gives a get error, each with the zero order; a delivered GET of a present record that decodes always succeeds, returning exactly that decoding |
| Repository.DeleteByID | repository/order/redis.go:103-129 | a committed delete removes the key from both records and index and nothing else; a failed commit changes nothing; deleting an absent key changes nothing |
| Repository.Update | repository/order/redis.go:131-147 | the index and the set of stored keys never change; an existing record takes the new encoding; an absent key leaves the store unchanged and is NotExist exactly when the client reports the nil reply |
| Repository.DecodeAll | repository/order/redis.go:182-196 | the batch decodes iff every value decodes, and then the i-th order is the decoding of the i-th value |
| Repository.ToInt64 | repository/order/redis.go:159 | `int64(page.Size)` is the int64 congruent to the size modulo 2^64, negative exactly for sizes of 2^63 and above |
| Repository.ScanArgs | repository/order/redis.go:159 | SSCAN resumes from the page's offset and is sent the size converted to int64 |
| Repository.FindAll | repository/order/redis.go:156-202 | scan error gives an error; an empty batch gives no orders and cursor 0; otherwise one order per key, the i-th decoded from the value at the i-th key, with the scan's cursor; any single decode failure fails the whole page with no partial result; the page succeeds iff the scan succeeds and, for a non-empty batch, MGET is delivered and every value decodes |
| Repository.FindAllCorrected | repository/order/redis.go:169-174 | every successful page carries the cursor SSCAN returned, an empty batch included; success and the position-by-position contents are as in FindAll, and a non-empty batch gives exactly FindAll's result |
| Properties.InsertPreservesValid | repository/order/redis.go:39-77 | Insert keeps records and index in agreement, with every stored key an order key |
| Properties.UpdatePreservesValid | repository/order/redis.go:131-147 | Update keeps records and index in agreement |
| Properties.DeletePreservesValid | repository/order/redis.go:103-129 | DeleteByID keeps records and index in agreement |
| Properties.RunPreservesValid | repository/order/redis.go:40-44 | no sequence of inserts, updates and deletes, with any mix of failed and committed round trips, leaves records and index apart |
| Properties.ValidBatchFits | repository/order/redis.go:177-188 | in a consistent store every index member drawn by a scan is stored, so MGET returns no nil for it |
| Properties.FindAfterInsert | repository/order/redis.go:39-101 | after a committed Insert of a new id, the key is indexed and FindByID returns the order, assuming the JSON round trip for that order |
| Properties.InsertTwiceKeepsFirst | repository/order/redis.go:57-59 | a second Insert with the same id also succeeds, keeps the first record, and adds no index entry |
| Properties.FindAfterDelete | repository/order/redis.go:82-129 | after a committed DeleteByID the key is in neither structure, FindByID gives NotExist, and deleting again changes nothing |
| Properties.EncodeFailureSendsNothing | repository/order/redis.go:48-51 | an encode failure in Insert or Update returns before any store command, whatever the server would do |
| Properties.EmptyBatchSendsNoMGet | repository/order/redis.go:169-174 | an empty scan batch yields the same result whatever MGET or the decoder would do |
| Properties.EmptyBatchDropsCursor | repository/order/redis.go:170-174 | as written, an empty batch yields cursor 0 whatever non-zero cursor SSCAN returned |
| Properties.CorrectedPageEndsWithScan | repository/order/redis.go:155-174 | with the correction, a page reports cursor 0 exactly when SSCAN finished the iteration |
| Properties.Lifecycle | repository/order/redis.go:39-147 | insert, read, update, read, delete, read: each read returns the latest order written and then NotExist, assuming the JSON round trip |

## Left out

- JSON encoding and decoding: `Codec` is a parameter. The round trip is
  assumed per order wherever a lemma needs it. It is never proved. Field
  layout, UUID parsing and time formatting are not modelled.
- Repository.Insert: the per-command error branches before `Exec` (lines 60-63
  and 65-68) are not modelled. In a pipelined transaction a queued command
  reports its result only at `Exec`.
- Repository.DeleteByID: the `redis.Nil` and error branches before `Exec`
  (lines 108-120) are not modelled, for the same reason. So the model never
  returns NotExist from DeleteByID. It proves the state facts instead: the key
  is gone afterwards, and deleting an absent key changes nothing.
- Repository.Update: whether go-redis turns SET XX's nil reply into
  `redis.Nil` is library behaviour, so it is the parameter `nilOnAbsent`. The
  state facts hold either way.
- Partial EXEC: Redis runs every queued command even when one fails at run
  time. The model treats a transaction as committing fully or, when the round
  trip fails, not at all.
- SSCAN's cursor algorithm and COUNT hint: the reply is a parameter. It is
  constrained only to draw members of the index, and no bound on the batch
  length is promised. Pagination completeness across chained pages is not
  modelled, because it depends on the server's algorithm. go-redis omitting a
  non-positive COUNT is library behaviour and is not modelled.
- Repository.FindAll: MGET returning nil for a missing key would panic at
  line 188. The precondition `BatchFits` excludes this. `ValidBatchFits`
  shows the consistent store guarantees it.
- Error messages: each distinct failure point is one `RepoError` constructor.
  The wrapped message text is not modelled.
- Go's nil slice and empty slice in `FindResult.Orders` are both the empty
  sequence.
- An error returned after the server already applied the write (a read
  timeout or a cancellation after EXEC or SET XX reached Redis) is not
  modelled: every failed round trip is assumed to have no effect. The
  "a failed commit changes nothing" clauses of Insert, DeleteByID and Update,
  and the failed round trips in RunPreservesValid, rest on this assumption.
- Context cancellation and other transport errors are a failed `Wire`, under
  the assumption above. Concurrent callers are not modelled.
- application/app.go and main.go (server start-up, ping, shutdown) and
  handler/order.go (handlers that only print) hold no repository logic.

## Findings

| source | as written | input that shows it | evidently intended | confidence | as-written member | corrected member |
|---|---|---|---|---|---|---|
| repository/order/redis.go:170-174 | an empty scan batch returns `FindResult{Orders: []}`, so `Cursor` is 0 whatever SSCAN returned | SSCAN answers an unfinished iteration with no members and a non-zero cursor such as 7, as Redis may for a large set; FindAll reports cursor 0, so a caller that pages until the cursor is 0 stops early and never sees the remaining orders | return the scan's cursor with the empty page (the comment at line 155 says the cursor tells the caller where to continue) | medium, not executed | Properties.EmptyBatchDropsCursor | Repository.FindAllCorrected |
