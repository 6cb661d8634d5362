/** The persisted entity: an order with its line items (the shape of model/order.go).
    The entity has no behaviour; only its fields matter to the repository. */
module Model {
  import opened Options

  /** Exclusive upper bound of Go's uint64 (and of uint on a 64-bit platform). */
  const U64_LIMIT: int := 0x1_0000_0000_0000_0000

  type U64 = x: int | 0 <= x < U64_LIMIT

  /** A 128-bit identifier, kept opaque: the repository never inspects it. */
  datatype Uuid = Uuid(hi: bv64, lo: bv64)

  /** A point in time, kept opaque: the repository never compares timestamps. */
  datatype Timestamp = Timestamp(unixSeconds: int, nanos: int)

  datatype LineItem = LineItem(itemId: Uuid, quantity: U64, price: U64)

  /** The three timestamps are pointers in the source, so each may be absent. */
  datatype Order = Order(
    orderId: U64,
    customerId: Uuid,
    lineItems: seq<LineItem>,
    createdAt: Option<Timestamp>,
    shippedAt: Option<Timestamp>,
    completedAt: Option<Timestamp>)

  /** Go's zero value `model.Order{}`, returned alongside every lookup error. */
  const ZeroOrder: Order := Order(0, Uuid(0, 0), [], None, None, None)
}
