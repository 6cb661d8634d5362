/** Store keys: `orderIDKey` formats an order id as "order:" followed by its
    decimal digits (Go's `%d` on a uint64), and the membership index lives at
    the fixed key "orders". The parser below is not part of the source; it is
    the inverse that makes the codec's injectivity provable. */
module KeyCodec {
  import opened Options
  import opened Model

  const Prefix: string := "order:"

  /** The key of the membership set that every Insert adds to. */
  const IndexKey: string := "orders"

  predicate IsDigit(c: char) {
    '0' <= c <= '9'
  }

  predicate AllDigits(s: string) {
    forall i :: 0 <= i < |s| ==> IsDigit(s[i])
  }

  /** The shape `%d` produces for an unsigned value: at least one digit and
      no leading zero unless the number is zero itself. */
  predicate Canonical(s: string) {
    |s| >= 1 && AllDigits(s) && (|s| > 1 ==> s[0] != '0')
  }

  function DigitChar(d: nat): (c: char)
    requires d < 10
    ensures IsDigit(c)
  {
    ('0' as int + d) as char
  }

  function DigitValue(c: char): (d: nat)
    requires IsDigit(c)
    ensures d < 10
  {
    c as int - '0' as int
  }

  /** Decimal rendering of a natural number, most significant digit first. */
  function Decimal(n: nat): (s: string)
    ensures |s| >= 1 && AllDigits(s)
    ensures s[0] == '0' <==> n == 0
    decreases n
  {
    if n < 10 then [DigitChar(n)] else Decimal(n / 10) + [DigitChar(n % 10)]
  }

  /** The number a string of digits denotes. */
  function DigitsValue(s: string): nat
    requires AllDigits(s)
  {
    if s == [] then 0 else DigitsValue(s[..|s| - 1]) * 10 + DigitValue(s[|s| - 1])
  }

  /** `orderIDKey` (repository/order/redis.go:34-36). */
  function OrderIdKey(id: U64): (k: string)
    ensures |k| > |Prefix| && k[..|Prefix|] == Prefix
    ensures Canonical(k[|Prefix|..])
    ensures k != IndexKey
  {
    var k := Prefix + Decimal(id);
    assert k[|Prefix|..] == Decimal(id);
    assert k[5] == ':';
    assert IndexKey[5] == 's';
    k
  }

  /** Reads an order id back from a key, accepting exactly the keys `OrderIdKey` produces. */
  function ParseOrderIdKey(k: string): (r: Option<U64>)
    ensures r.Some? ==> |k| > |Prefix| && k[..|Prefix|] == Prefix
  {
    if |k| > |Prefix| && k[..|Prefix|] == Prefix && Canonical(k[|Prefix|..])
       && DigitsValue(k[|Prefix|..]) < U64_LIMIT
    then Some(DigitsValue(k[|Prefix|..]))
    else None
  }

  /** The keys of stored orders. */
  predicate IsOrderKey(k: string) {
    ParseOrderIdKey(k).Some?
  }

  lemma DigitRoundTrip(d: nat)
    requires d < 10
    ensures DigitValue(DigitChar(d)) == d
  {
  }

  lemma CharRoundTrip(c: char)
    requires IsDigit(c)
    ensures DigitChar(DigitValue(c)) == c
  {
  }

  /** Parsing the decimal rendering of `n` gives `n` back. */
  lemma {:induction false} DecimalValue(n: nat)
    ensures DigitsValue(Decimal(n)) == n
    decreases n
  {
    var s := Decimal(n);
    if n < 10 {
      DigitRoundTrip(n);
    } else {
      DecimalValue(n / 10);
      assert s[..|s| - 1] == Decimal(n / 10);
      assert s[|s| - 1] == DigitChar(n % 10);
      DigitRoundTrip(n % 10);
    }
  }

  /** A digit string that does not start with '0' denotes a positive number. */
  lemma {:induction false} LeadingDigitPositive(s: string)
    requires |s| >= 1 && AllDigits(s) && s[0] != '0'
    ensures DigitsValue(s) >= 1
    decreases |s|
  {
    if |s| > 1 {
      var t := s[..|s| - 1];
      assert t[0] == s[0];
      LeadingDigitPositive(t);
    }
  }

  /** Rendering the number a canonical digit string denotes gives the string back. */
  lemma {:induction false} ValueDecimal(s: string)
    requires Canonical(s)
    ensures Decimal(DigitsValue(s)) == s
    decreases |s|
  {
    var last := s[|s| - 1];
    if |s| == 1 {
      CharRoundTrip(last);
      assert s == [last];
    } else {
      var t := s[..|s| - 1];
      assert t[0] == s[0];
      ValueDecimal(t);
      LeadingDigitPositive(t);
      var v := DigitsValue(s);
      assert v == DigitsValue(t) * 10 + DigitValue(last);
      assert v / 10 == DigitsValue(t) && v % 10 == DigitValue(last);
      CharRoundTrip(last);
      assert s == t + [last];
    }
  }

  /** Distinct numbers have distinct decimal renderings. */
  lemma DecimalInjective(a: nat, b: nat)
    ensures Decimal(a) == Decimal(b) ==> a == b
  {
    DecimalValue(a);
    DecimalValue(b);
  }

  /** Parsing inverts `OrderIdKey`. */
  lemma KeyRoundTrip(id: U64)
    ensures ParseOrderIdKey(OrderIdKey(id)) == Some(id)
  {
    var k := OrderIdKey(id);
    assert k[|Prefix|..] == Decimal(id);
    DecimalValue(id);
  }

  /** Every key the parser accepts is the key of the id it yields. */
  lemma ParsedKeyIsOrderIdKey(k: string)
    requires ParseOrderIdKey(k).Some?
    ensures OrderIdKey(ParseOrderIdKey(k).value) == k
  {
    var digits := k[|Prefix|..];
    ValueDecimal(digits);
    assert k == Prefix + digits;
  }

  /** `OrderIdKey` never maps two ids to the same key. */
  lemma OrderIdKeyInjective(a: U64, b: U64)
    ensures OrderIdKey(a) == OrderIdKey(b) ==> a == b
  {
    KeyRoundTrip(a);
    KeyRoundTrip(b);
  }

  /** Exactly the keys `OrderIdKey` produces are order keys, and the index key is none of them. */
  lemma OrderKeysAreExactlyTheImage(k: string)
    ensures IsOrderKey(k) <==> exists id: U64 :: OrderIdKey(id) == k
    ensures !IsOrderKey(IndexKey)
  {
    if IsOrderKey(k) {
      ParsedKeyIsOrderIdKey(k);
    }
    if exists id: U64 :: OrderIdKey(id) == k {
      var id: U64 :| OrderIdKey(id) == k;
      KeyRoundTrip(id);
    }
    assert IndexKey[..|Prefix|] != Prefix by {
      assert IndexKey[5] != Prefix[5];
    }
  }
}
