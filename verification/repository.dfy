/** `RedisRepo` (repository/order/redis.go): the five repository operations as
    pure steps over the store. Each write returns the store after the step and
    the error it reports (None is Go's nil error); each read returns the value
    and the error, as the Go methods return (value, error) pairs.

    What the source leaves to libraries or to the network is a parameter:
    the JSON encoder/decoder (`Codec`), the fate of each round trip (`Wire`),
    the reply of SSCAN, and whether the client reports a SET XX on an absent
    key as `redis.Nil`. */
module Repository {
  import opened Options
  import opened Model
  import opened KeyCodec
  import opened RedisStore

  /** The errors the repository returns, one per distinct failure point. */
  datatype RepoError =
    | NotExist      // ErrNotExist
    | EncodeFailed  // json.Marshal failed (Insert, Update)
    | DecodeFailed  // json.Unmarshal failed (FindByID, FindAll)
    | ExecFailed    // the transaction did not commit (Insert, DeleteByID)
    | GetFailed     // GET failed other than by a nil reply
    | UpdateFailed  // SET XX failed other than by a nil reply
    | ScanFailed    // SSCAN failed
    | MGetFailed    // MGET failed

  /** `json.Marshal` and `json.Unmarshal` for orders, both of which may fail. */
  datatype Codec = Codec(encode: Order -> Option<string>, decode: string -> Option<Order>)

  /** The outcome of a write: the store afterwards and the error returned. */
  datatype Written = Written(store: Store, err: Option<RepoError>)

  /** The outcome of a read: Go's (value, error) pair. */
  datatype Reply<T> = Reply(value: T, err: Option<RepoError>)

  /** `FindAllPage`: `Offset` is the SSCAN cursor to resume from; `uint` is 64 bits wide. */
  datatype FindAllPage = FindAllPage(size: U64, offset: U64)

  datatype FindResult = FindResult(orders: seq<Order>, cursor: U64)

  const I64_HALF: int := 0x8000_0000_0000_0000

  type I64 = x: int | -I64_HALF <= x < I64_HALF

  /** The arguments of `SScan("orders", cursor, "*", count)`. */
  datatype SScanArgs = SScanArgs(cursor: U64, count: I64)

  /** What SSCAN answers: an error, or a batch of members and the next cursor. */
  datatype ScanReply = ScanError | ScanBatch(keys: seq<string>, cursor: U64)

  /** Go's conversion `int64(x)` of a 64-bit unsigned value: the int64 that
      agrees with `x` modulo 2^64 (so sizes of 2^63 and above turn negative). */
  function ToInt64(x: U64): (r: I64)
    ensures (x - r) % U64_LIMIT == 0
    ensures r >= 0 <==> x < I64_HALF
  {
    if x < I64_HALF then x else x - U64_LIMIT
  }

  /** The SSCAN request FindAll sends for a page (repository/order/redis.go:159). */
  function ScanArgs(page: FindAllPage): (a: SScanArgs)
    ensures a.cursor == page.offset
    ensures (page.size - a.count) % U64_LIMIT == 0
  {
    SScanArgs(page.offset, ToInt64(page.size))
  }

  /** A scan batch the server may return: members of the index only, and
      (the source indexes MGET's reply without a nil check) each one stored. */
  predicate BatchFits(s: Store, reply: ScanReply) {
    reply.ScanBatch? ==>
      forall i :: 0 <= i < |reply.keys| ==> reply.keys[i] in s.orders && reply.keys[i] in s.strings
  }

  /** Insert (repository/order/redis.go:39-77): encode, then SETNX the record
      and SADD its key in one transaction. An existing record is never
      overwritten and no "already exists" error is reported. */
  function Insert(s: Store, order: Order, codec: Codec, exec: Wire): (r: Written)
    ensures codec.encode(order).None? ==> r == Written(s, Some(EncodeFailed))
    ensures codec.encode(order).Some? && exec.Failed? ==> r == Written(s, Some(ExecFailed))
    ensures r.err == None <==> codec.encode(order).Some? && exec.Delivered?
    ensures r.err == None ==>
      var key := OrderIdKey(order.orderId);
      && key in r.store.strings
      && r.store.orders == s.orders + {key}
      && r.store.strings - {key} == s.strings - {key}
    ensures OrderIdKey(order.orderId) in s.strings ==> r.store.strings == s.strings
    ensures r.err == None && OrderIdKey(order.orderId) !in s.strings ==>
      r.store.strings == s.strings[OrderIdKey(order.orderId) := codec.encode(order).value]
  {
    match codec.encode(order)
    case None => Written(s, Some(EncodeFailed))
    case Some(data) =>
      var key := OrderIdKey(order.orderId);
      var cmds := [SetNX(key, data), SAdd(key)];
      ApplyPair(s, cmds[0], cmds[1]);
      match Exec(s, cmds, exec)
      case None => Written(s, Some(ExecFailed))
      case Some(s') => Written(s', None)
  }

  /** FindByID (repository/order/redis.go:79-101): GET then decode. Every
      error comes with the zero order. */
  function FindByID(s: Store, id: U64, codec: Codec, get: Wire): (r: Reply<Order>)
    ensures r.err != None ==> r.value == ZeroOrder
    ensures r.err == Some(NotExist) <==> get.Delivered? && OrderIdKey(id) !in s.strings
    ensures r.err == Some(GetFailed) <==> get.Failed?
    ensures r.err == Some(DecodeFailed) <==>
      get.Delivered? && OrderIdKey(id) in s.strings && codec.decode(s.strings[OrderIdKey(id)]).None?
    ensures r.err == None <==>
      get.Delivered? && OrderIdKey(id) in s.strings && codec.decode(s.strings[OrderIdKey(id)]).Some?
    ensures r.err == None ==>
      OrderIdKey(id) in s.strings && codec.decode(s.strings[OrderIdKey(id)]) == Some(r.value)
  {
    if get.Failed? then Reply(ZeroOrder, Some(GetFailed))
    else
      match Get(s, OrderIdKey(id))
      case None => Reply(ZeroOrder, Some(NotExist))
      case Some(val) =>
        match codec.decode(val)
        case None => Reply(ZeroOrder, Some(DecodeFailed))
        case Some(order) => Reply(order, None)
  }

  /** DeleteByID (repository/order/redis.go:103-129): DEL the record and SREM
      its key in one transaction. */
  function DeleteByID(s: Store, id: U64, exec: Wire): (r: Written)
    ensures exec.Failed? ==> r == Written(s, Some(ExecFailed))
    ensures r.err == None <==> exec.Delivered?
    ensures r.err == None ==>
      && r.store.strings == s.strings - {OrderIdKey(id)}
      && r.store.orders == s.orders - {OrderIdKey(id)}
    ensures OrderIdKey(id) !in s.strings && OrderIdKey(id) !in s.orders ==> r.store == s
  {
    var key := OrderIdKey(id);
    var cmds := [Del(key), SRem(key)];
    ApplyPair(s, cmds[0], cmds[1]);
    match Exec(s, cmds, exec)
    case None => Written(s, Some(ExecFailed))
    case Some(s') => Written(s', None)
  }

  /** Update (repository/order/redis.go:131-147): encode, then SET XX. It never
      creates a record and never touches the index. An absent key leaves the
      store unchanged; it is reported as NotExist only when the client turns
      the nil reply into `redis.Nil` (`nilOnAbsent`). */
  function Update(s: Store, order: Order, codec: Codec, setxx: Wire, nilOnAbsent: bool): (r: Written)
    ensures r.store.orders == s.orders
    ensures r.store.strings.Keys == s.strings.Keys
    ensures r.store.strings - {OrderIdKey(order.orderId)} == s.strings - {OrderIdKey(order.orderId)}
    ensures OrderIdKey(order.orderId) !in s.strings ==> r.store == s
    ensures codec.encode(order).None? ==> r == Written(s, Some(EncodeFailed))
    ensures codec.encode(order).Some? && setxx.Failed? ==> r == Written(s, Some(UpdateFailed))
    ensures r.err == Some(NotExist) <==>
      codec.encode(order).Some? && setxx.Delivered? && OrderIdKey(order.orderId) !in s.strings && nilOnAbsent
    ensures r.err == None <==>
      codec.encode(order).Some? && setxx.Delivered? && (OrderIdKey(order.orderId) in s.strings || !nilOnAbsent)
    ensures r.err == None && OrderIdKey(order.orderId) in s.strings ==>
      r.store.strings[OrderIdKey(order.orderId)] == codec.encode(order).value
  {
    match codec.encode(order)
    case None => Written(s, Some(EncodeFailed))
    case Some(data) =>
      var key := OrderIdKey(order.orderId);
      if setxx.Failed? then Written(s, Some(UpdateFailed))
      else
        var applied := key in s.strings;
        Written(SetXX(s, key, data), if !applied && nilOnAbsent then Some(NotExist) else None)
  }

  /** The decoding loop of FindAll (repository/order/redis.go:182-196): every
      value decodes, position by position, or the whole batch fails. */
  function DecodeAll(vals: seq<string>, decode: string -> Option<Order>): (r: Option<seq<Order>>)
    ensures r.Some? <==> forall i :: 0 <= i < |vals| ==> decode(vals[i]).Some?
    ensures r.Some? ==>
      |r.value| == |vals| && forall i :: 0 <= i < |vals| ==> decode(vals[i]) == Some(r.value[i])
    decreases |vals|
  {
    if vals == [] then Some([])
    else
      match decode(vals[0])
      case None => None
      case Some(order) =>
        match DecodeAll(vals[1..], decode)
        case None => None
        case Some(rest) => Some([order] + rest)
  }

  /** FindAll (repository/order/redis.go:156-202): one SSCAN batch of the
      index, then one MGET of exactly those keys, decoded in key order. */
  function FindAll(s: Store, page: FindAllPage, scan: SScanArgs -> ScanReply, mget: Wire, codec: Codec)
    : (r: Reply<FindResult>)
    requires BatchFits(s, scan(ScanArgs(page)))
    ensures scan(ScanArgs(page)).ScanError? ==> r == Reply(FindResult([], 0), Some(ScanFailed))
    ensures scan(ScanArgs(page)).ScanBatch? && scan(ScanArgs(page)).keys == [] ==>
      r == Reply(FindResult([], 0), None)
    ensures r.err != None ==> r.value == FindResult([], 0)
    ensures r.err == Some(MGetFailed) <==>
      scan(ScanArgs(page)).ScanBatch? && scan(ScanArgs(page)).keys != [] && mget.Failed?
    ensures r.err == Some(DecodeFailed) <==>
      var reply := scan(ScanArgs(page));
      && reply.ScanBatch? && reply.keys != [] && mget.Delivered?
      && exists i :: 0 <= i < |reply.keys| && codec.decode(s.strings[reply.keys[i]]).None?
    ensures r.err == Some(ScanFailed) <==> scan(ScanArgs(page)).ScanError?
    ensures r.err == None <==>
      var reply := scan(ScanArgs(page));
      && reply.ScanBatch?
      && (reply.keys != [] ==>
            mget.Delivered? && forall i :: 0 <= i < |reply.keys| ==> codec.decode(s.strings[reply.keys[i]]).Some?)
    ensures r.err == None && scan(ScanArgs(page)).ScanBatch? && scan(ScanArgs(page)).keys != [] ==>
      var reply := scan(ScanArgs(page));
      && reply.ScanBatch?
      && r.value.cursor == reply.cursor
      && |r.value.orders| == |reply.keys|
      && forall i :: 0 <= i < |reply.keys| ==> codec.decode(s.strings[reply.keys[i]]) == Some(r.value.orders[i])
  {
    match scan(ScanArgs(page))
    case ScanError => Reply(FindResult([], 0), Some(ScanFailed))
    case ScanBatch(keys, cursor) =>
      if |keys| == 0 then Reply(FindResult([], 0), None)
      else if mget.Failed? then Reply(FindResult([], 0), Some(MGetFailed))
      else
        match DecodeAll(MGet(s, keys), codec.decode)
        case None => Reply(FindResult([], 0), Some(DecodeFailed))
        case Some(orders) => Reply(FindResult(orders, cursor), None)
  }

  /** FindAll as evidently intended: an empty batch still hands back the
      cursor SSCAN returned, since SSCAN may answer an unfinished iteration
      with no members. Identical to FindAll otherwise. */
  function FindAllCorrected(s: Store, page: FindAllPage, scan: SScanArgs -> ScanReply, mget: Wire, codec: Codec)
    : (r: Reply<FindResult>)
    requires BatchFits(s, scan(ScanArgs(page)))
    ensures r.err == None ==> scan(ScanArgs(page)).ScanBatch? && r.value.cursor == scan(ScanArgs(page)).cursor
    ensures r.err == None ==> |r.value.orders| == |scan(ScanArgs(page)).keys|
    ensures r.err == None ==>
      forall i :: 0 <= i < |r.value.orders| ==>
        codec.decode(s.strings[scan(ScanArgs(page)).keys[i]]) == Some(r.value.orders[i])
    ensures r.err == Some(ScanFailed) <==> scan(ScanArgs(page)).ScanError?
    ensures r.err == None <==>
      var reply := scan(ScanArgs(page));
      && reply.ScanBatch?
      && (reply.keys != [] ==>
            mget.Delivered? && forall i :: 0 <= i < |reply.keys| ==> codec.decode(s.strings[reply.keys[i]]).Some?)
    ensures scan(ScanArgs(page)).ScanBatch? && scan(ScanArgs(page)).keys != [] ==>
      r == FindAll(s, page, scan, mget, codec)
    ensures scan(ScanArgs(page)).ScanBatch? && scan(ScanArgs(page)).keys == [] ==>
      r == Reply(FindResult([], scan(ScanArgs(page)).cursor), None)
  {
    var reply := scan(ScanArgs(page));
    if reply.ScanBatch? && reply.keys == [] then Reply(FindResult([], reply.cursor), None)
    else FindAll(s, page, scan, mget, codec)
  }
}
