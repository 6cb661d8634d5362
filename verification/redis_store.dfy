/** The slice of the Redis keyspace the repository touches, and the commands it
    issues, as pure functions on an immutable value. String keys hold encoded
    orders; the set stored at "orders" is kept as a separate field (the key
    codec proves no order key can be "orders", so the two never alias). */
module RedisStore {
  import opened Options

  datatype Store = Store(strings: map<string, string>, orders: set<string>)

  /** The fate of one round trip to the server: it happens, or it fails
      (transport error, cancelled context) and is assumed to fail without
      effect. */
  datatype Wire = Delivered | Failed

  /** The commands queued inside a MULTI/EXEC transaction. */
  datatype Command =
    | SetNX(key: string, value: string)
    | SAdd(member: string)
    | Del(key: string)
    | SRem(member: string)

  /** GET: the value at `key`, or none (Redis's nil reply). */
  function Get(s: Store, key: string): (r: Option<string>)
    ensures r.Some? <==> key in s.strings
    ensures r.Some? ==> r.value == s.strings[key]
  {
    if key in s.strings then Some(s.strings[key]) else None
  }

  /** SET ... XX: overwrites the value only when the key already exists. */
  function SetXX(s: Store, key: string, value: string): (r: Store)
    ensures r.orders == s.orders && r.strings.Keys == s.strings.Keys
    ensures key in s.strings ==> r.strings[key] == value
    ensures r.strings - {key} == s.strings - {key}
  {
    if key in s.strings then s.(strings := s.strings[key := value]) else s
  }

  /** MGET of keys that are all present: one value per key, in key order. */
  function MGet(s: Store, keys: seq<string>): (r: seq<string>)
    requires forall i :: 0 <= i < |keys| ==> keys[i] in s.strings
    ensures |r| == |keys|
    ensures forall i :: 0 <= i < |keys| ==> r[i] == s.strings[keys[i]]
  {
    seq(|keys|, i requires 0 <= i < |keys| => s.strings[keys[i]])
  }

  /** The effect of one queued command once the transaction runs. */
  function Apply(s: Store, c: Command): Store {
    match c
    case SetNX(k, v) => if k in s.strings then s else s.(strings := s.strings[k := v])
    case SAdd(m) => s.(orders := s.orders + {m})
    case Del(k) => s.(strings := s.strings - {k})
    case SRem(m) => s.(orders := s.orders - {m})
  }

  function ApplyAll(s: Store, cmds: seq<Command>): Store
    decreases |cmds|
  {
    if cmds == [] then s else ApplyAll(Apply(s, cmds[0]), cmds[1..])
  }

  /** EXEC: either every queued command takes effect, in order, or (when the
      round trip fails) none does. */
  function Exec(s: Store, cmds: seq<Command>, wire: Wire): (r: Option<Store>)
    ensures r.Some? <==> wire.Delivered?
  {
    if wire.Failed? then None else Some(ApplyAll(s, cmds))
  }

  /** A two-command transaction runs its commands one after the other. */
  lemma ApplyPair(s: Store, a: Command, b: Command)
    ensures ApplyAll(s, [a, b]) == Apply(Apply(s, a), b)
  {
    assert [a, b][1..] == [b];
    assert [b][1..] == [];
    assert ApplyAll(Apply(Apply(s, a), b), []) == Apply(Apply(s, a), b);
    assert ApplyAll(Apply(s, a), [b]) == Apply(Apply(s, a), b);
  }
}
