/** Properties of the repository across calls: the records/index invariant the
    transactions exist to protect (repository/order/redis.go:40-44, 70-71,
    122-123), what later reads observe after each write, and the empty-batch
    cursor of FindAll. */
module Properties {
  import opened Options
  import opened Model
  import opened KeyCodec
  import opened RedisStore
  import opened Repository

  /** The stored records and the "orders" index agree, and every stored key
      is the key of some order id. */
  predicate Valid(s: Store) {
    && s.strings.Keys == s.orders
    && forall k :: k in s.strings ==> IsOrderKey(k)
  }

  lemma InsertPreservesValid(s: Store, order: Order, codec: Codec, exec: Wire)
    requires Valid(s)
    ensures Valid(Insert(s, order, codec, exec).store)
  {
    KeyRoundTrip(order.orderId);
  }

  lemma UpdatePreservesValid(s: Store, order: Order, codec: Codec, setxx: Wire, nilOnAbsent: bool)
    requires Valid(s)
    ensures Valid(Update(s, order, codec, setxx, nilOnAbsent).store)
  {
  }

  lemma DeletePreservesValid(s: Store, id: U64, exec: Wire)
    requires Valid(s)
    ensures Valid(DeleteByID(s, id, exec).store)
  {
  }

  /** One call of a mutating operation, with everything the environment decides. */
  datatype Op =
    | InsertOp(order: Order, exec: Wire)
    | UpdateOp(order: Order, setxx: Wire, nilOnAbsent: bool)
    | DeleteOp(id: U64, exec: Wire)

  function Step(s: Store, op: Op, codec: Codec): Written {
    match op
    case InsertOp(order, exec) => Insert(s, order, codec, exec)
    case UpdateOp(order, setxx, nilOnAbsent) => Update(s, order, codec, setxx, nilOnAbsent)
    case DeleteOp(id, exec) => DeleteByID(s, id, exec)
  }

  /** The store after a sequence of calls, whatever each of them reported. */
  function Run(s: Store, ops: seq<Op>, codec: Codec): Store
    decreases |ops|
  {
    if ops == [] then s else Run(Step(s, ops[0], codec).store, ops[1..], codec)
  }

  /** No sequence of calls, with any mix of failed and committed round trips,
      ever leaves records and index apart. */
  lemma {:induction false} RunPreservesValid(s: Store, ops: seq<Op>, codec: Codec)
    requires Valid(s)
    ensures Valid(Run(s, ops, codec))
    decreases |ops|
  {
    if ops != [] {
      var s' := Step(s, ops[0], codec).store;
      match ops[0] {
        case InsertOp(order, exec) => InsertPreservesValid(s, order, codec, exec);
        case UpdateOp(order, setxx, nilOnAbsent) => UpdatePreservesValid(s, order, codec, setxx, nilOnAbsent);
        case DeleteOp(id, exec) => DeletePreservesValid(s, id, exec);
      }
      RunPreservesValid(s', ops[1..], codec);
    }
  }

  /** In a valid store every member of the index is stored, so any scan batch
      drawn from the index is one FindAll can fetch without a nil reply. */
  lemma ValidBatchFits(s: Store, keys: seq<string>, cursor: U64)
    requires Valid(s)
    requires forall i :: 0 <= i < |keys| ==> keys[i] in s.orders
    ensures BatchFits(s, ScanBatch(keys, cursor))
  {
  }

  /** An Insert of a new id that commits is read back by FindByID, provided the
      encoding of that order decodes to it (a round trip of the JSON library,
      assumed here, not proved). */
  lemma FindAfterInsert(s: Store, order: Order, codec: Codec, data: string)
    requires OrderIdKey(order.orderId) !in s.strings
    requires codec.encode(order) == Some(data)
    requires codec.decode(data) == Some(order)
    ensures Insert(s, order, codec, Delivered).err == None
    ensures OrderIdKey(order.orderId) in Insert(s, order, codec, Delivered).store.orders
    ensures FindByID(Insert(s, order, codec, Delivered).store, order.orderId, codec, Delivered) == Reply(order, None)
  {
  }

  /** A second Insert with the same id also reports success but leaves the
      first record in place, and the index holds the key once (it is a set). */
  lemma InsertTwiceKeepsFirst(s: Store, first: Order, second: Order, codec: Codec)
    requires first.orderId == second.orderId
    requires OrderIdKey(first.orderId) !in s.strings
    requires codec.encode(first).Some? && codec.encode(second).Some?
    ensures
      var s1 := Insert(s, first, codec, Delivered);
      var s2 := Insert(s1.store, second, codec, Delivered);
      && s1.err == None && s2.err == None
      && s2.store.strings[OrderIdKey(first.orderId)] == codec.encode(first).value
      && s2.store.orders == s1.store.orders
  {
  }

  /** After a committed DeleteByID the key is in neither structure and
      FindByID reports NotExist; deleting again changes nothing. */
  lemma FindAfterDelete(s: Store, id: U64, codec: Codec)
    ensures
      var d := DeleteByID(s, id, Delivered);
      && d.err == None
      && OrderIdKey(id) !in d.store.strings && OrderIdKey(id) !in d.store.orders
      && FindByID(d.store, id, codec, Delivered) == Reply(ZeroOrder, Some(NotExist))
      && DeleteByID(d.store, id, Delivered).store == d.store
  {
  }

  /** An encode failure returns before any command is sent: the outcome does
      not depend on what the server would have done. */
  lemma EncodeFailureSendsNothing(s: Store, order: Order, codec: Codec, w1: Wire, w2: Wire, nil1: bool, nil2: bool)
    requires codec.encode(order).None?
    ensures Insert(s, order, codec, w1) == Insert(s, order, codec, w2) == Written(s, Some(EncodeFailed))
    ensures Update(s, order, codec, w1, nil1) == Update(s, order, codec, w2, nil2) == Written(s, Some(EncodeFailed))
  {
  }

  /** An empty scan batch issues no MGET and decodes nothing: the outcome does
      not depend on the MGET round trip or on the decoder. */
  lemma EmptyBatchSendsNoMGet(s: Store, page: FindAllPage, scan: SScanArgs -> ScanReply,
                              m1: Wire, m2: Wire, c1: Codec, c2: Codec)
    requires scan(ScanArgs(page)).ScanBatch? && scan(ScanArgs(page)).keys == []
    ensures FindAll(s, page, scan, m1, c1) == FindAll(s, page, scan, m2, c2)
    ensures FindAllCorrected(s, page, scan, m1, c1) == FindAllCorrected(s, page, scan, m2, c2)
  {
  }

  /** As written, FindAll answers an empty batch with cursor 0 whatever cursor
      SSCAN returned; a caller that pages until the cursor is 0 then stops
      although the scan is unfinished. */
  lemma EmptyBatchDropsCursor(s: Store, page: FindAllPage, scan: SScanArgs -> ScanReply, mget: Wire, codec: Codec, c: U64)
    requires scan(ScanArgs(page)) == ScanBatch([], c) && c != 0
    ensures FindAll(s, page, scan, mget, codec) == Reply(FindResult([], 0), None)
    ensures FindAll(s, page, scan, mget, codec).value.cursor != scan(ScanArgs(page)).cursor
  {
  }

  /** With the correction, a successful page reports the end of the iteration
      exactly when SSCAN does. */
  lemma CorrectedPageEndsWithScan(s: Store, page: FindAllPage, scan: SScanArgs -> ScanReply, mget: Wire, codec: Codec)
    requires BatchFits(s, scan(ScanArgs(page)))
    requires FindAllCorrected(s, page, scan, mget, codec).err == None
    ensures FindAllCorrected(s, page, scan, mget, codec).value.cursor == 0 <==> scan(ScanArgs(page)).cursor == 0
  {
  }

  /** The order lifecycle: insert, read, update, read, delete, read — with
      the JSON round trip assumed for the two encodings involved. */
  lemma Lifecycle(s: Store, order: Order, updated: Order, codec: Codec, data: string, data': string)
    requires updated.orderId == order.orderId
    requires OrderIdKey(order.orderId) !in s.strings
    requires codec.encode(order) == Some(data) && codec.decode(data) == Some(order)
    requires codec.encode(updated) == Some(data') && codec.decode(data') == Some(updated)
    ensures
      var id := order.orderId;
      var s1 := Insert(s, order, codec, Delivered);
      var s2 := Update(s1.store, updated, codec, Delivered, true);
      var s3 := DeleteByID(s2.store, id, Delivered);
      && s1.err == None && FindByID(s1.store, id, codec, Delivered) == Reply(order, None)
      && s2.err == None && FindByID(s2.store, id, codec, Delivered) == Reply(updated, None)
      && s3.err == None && FindByID(s3.store, id, codec, Delivered) == Reply(ZeroOrder, Some(NotExist))
  {
  }
}
