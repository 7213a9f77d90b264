/**
 * IPv4 addresses and their dotted-decimal text, the form in which the store
 * keeps them (`IPAddress::toString` on the way in, `IPAddress::fromString` on
 * the way out).
 */
module IpText {
  import opened Wrappers
  import opened Bytes

  const DOT: Byte := 0x2E
  const DIGIT_ZERO: Byte := 0x30

  datatype Ip = Ip(a: Byte, b: Byte, c: Byte, d: Byte)

  /** `IPAddress(0, 0, 0, 0)`, the store's "no address" sentinel. */
  const ZERO_IP: Ip := Ip(0, 0, 0, 0)

  predicate IsDigit(x: Byte)
  {
    DIGIT_ZERO <= x <= DIGIT_ZERO + 9
  }

  predicate AllDigits(ds: seq<Byte>)
  {
    forall i :: 0 <= i < |ds| ==> IsDigit(ds[i])
  }

  /** The decimal numeral of `n`, without leading zeros. */
  function Decimal(n: nat): (r: seq<Byte>)
    ensures 0 < |r| && AllDigits(r) && DOT !in r
    ensures n < 10 ==> |r| == 1
    ensures n < 100 ==> |r| <= 2
    ensures n < 1000 ==> |r| <= 3
  {
    if n < 10 then [DIGIT_ZERO + n as Byte]
    else Decimal(n / 10) + [DIGIT_ZERO + (n % 10) as Byte]
  }

  /** The value of a decimal numeral (leading zeros allowed). */
  function DigitsValue(ds: seq<Byte>): nat
    requires AllDigits(ds)
  {
    if ds == [] then 0
    else 10 * DigitsValue(ds[..|ds| - 1]) + (ds[|ds| - 1] - DIGIT_ZERO) as nat
  }

  /** Reading a numeral back gives the number it was printed from. */
  lemma {:induction false} DecimalValue(n: nat)
    ensures DigitsValue(Decimal(n)) == n
  {
    if n >= 10 {
      DecimalValue(n / 10);
      var ds := Decimal(n);
      assert ds[..|ds| - 1] == Decimal(n / 10);
    }
  }

  /** The dot-separated fields of a text; a text without dots is one field. */
  function Fields(t: seq<Byte>): (r: seq<seq<Byte>>)
    ensures |r| >= 1
  {
    if t == [] then [[]]
    else
      var rest := Fields(t[1..]);
      if t[0] == DOT then [[]] + rest else [[t[0]] + rest[0]] + rest[1..]
  }

  /** The fields put back together with dots between them. */
  function Join(fs: seq<seq<Byte>>): seq<Byte>
    requires |fs| >= 1
  {
    if |fs| == 1 then fs[0] else fs[0] + [DOT] + Join(fs[1..])
  }

  /** Splitting at dots and joining with dots gives back the text. */
  lemma {:induction false} JoinFields(t: seq<Byte>)
    ensures Join(Fields(t)) == t
  {
    if t != [] {
      JoinFields(t[1..]);
      var rest := Fields(t[1..]);
      if t[0] == DOT {
        assert Fields(t) == [[]] + rest;
        assert t == [DOT] + t[1..];
      } else if |rest| == 1 {
        assert t == [t[0]] + t[1..];
      } else {
        assert Join(rest) == rest[0] + [DOT] + Join(rest[1..]);
        assert Fields(t)[1..] == rest[1..];
        assert t == [t[0]] + t[1..];
      }
    }
  }

  /** A dot-free prefix joins the first field of what follows it. */
  lemma {:induction false} FieldsPrepend(x: seq<Byte>, z: seq<Byte>)
    requires DOT !in x
    ensures Fields(x + z) == [x + Fields(z)[0]] + Fields(z)[1..]
  {
    if x != [] {
      FieldsPrepend(x[1..], z);
      var rest := Fields(x[1..] + z);
      assert (x + z)[0] == x[0] != DOT;
      assert (x + z)[1..] == x[1..] + z;
      assert Fields(x + z) == [[x[0]] + rest[0]] + rest[1..];
      assert rest[0] == x[1..] + Fields(z)[0] && rest[1..] == Fields(z)[1..];
      assert [x[0]] + (x[1..] + Fields(z)[0]) == x + Fields(z)[0];
    } else {
      assert x + z == z && x + Fields(z)[0] == Fields(z)[0];
    }
  }

  /** Joining dot-free fields and splitting again gives back the fields. */
  lemma {:induction false} FieldsJoin(fs: seq<seq<Byte>>)
    requires |fs| >= 1
    requires forall i :: 0 <= i < |fs| ==> DOT !in fs[i]
    ensures Fields(Join(fs)) == fs
  {
    if |fs| == 1 {
      FieldsPrepend(fs[0], []);
      assert fs[0] + [] == fs[0];
    } else {
      FieldsJoin(fs[1..]);
      var z := [DOT] + Join(fs[1..]);
      assert fs[0] + [DOT] + Join(fs[1..]) == fs[0] + z;
      FieldsPrepend(fs[0], z);
      assert z[1..] == Join(fs[1..]);
      assert Fields(z) == [[]] + Fields(Join(fs[1..]));
      assert fs[0] + [] == fs[0];
      assert fs == [fs[0]] + fs[1..];
    }
  }

  /** Every byte of joined all-digit fields is a digit or a dot. */
  lemma {:induction false} JoinAlphabet(fs: seq<seq<Byte>>)
    requires |fs| >= 1
    requires forall i :: 0 <= i < |fs| ==> AllDigits(fs[i])
    ensures forall k :: 0 <= k < |Join(fs)| ==> IsDigit(Join(fs)[k]) || Join(fs)[k] == DOT
  {
    if |fs| > 1 {
      JoinAlphabet(fs[1..]);
      var head := fs[0] + [DOT];
      assert Join(fs) == head + Join(fs[1..]);
      assert AllDigits(fs[0]);
    }
  }

  /** A decimal field of an address: a non-empty numeral of value at most 255. */
  predicate IsOctet(f: seq<Byte>)
  {
    |f| > 0 && AllDigits(f) && DigitsValue(f) < 256
  }

  function Octet(f: seq<Byte>): Byte
    requires IsOctet(f)
  {
    DigitsValue(f) as Byte
  }

  /** Dotted-decimal text of an address, as `toString` writes it. */
  function FormatIp(ip: Ip): (r: seq<Byte>)
    ensures Fields(r) == [Decimal(ip.a as nat), Decimal(ip.b as nat), Decimal(ip.c as nat), Decimal(ip.d as nat)]
  {
    var fs := [Decimal(ip.a as nat), Decimal(ip.b as nat), Decimal(ip.c as nat), Decimal(ip.d as nat)];
    FieldsJoin(fs);
    Join(fs)
  }

  /**
   * Parsing dotted-decimal text: exactly four dot-separated octets, or no
   * address at all.
   */
  function ParseIp(t: seq<Byte>): (r: Option<Ip>)
    ensures r.Some? ==> |Fields(t)| == 4
    ensures r.Some? ==> forall k :: 0 <= k < |t| ==> IsDigit(t[k]) || t[k] == DOT
  {
    var fs := Fields(t);
    if |fs| == 4 && IsOctet(fs[0]) && IsOctet(fs[1]) && IsOctet(fs[2]) && IsOctet(fs[3]) then
      assert forall i :: 0 <= i < |fs| ==> AllDigits(fs[i]);
      JoinFields(t);
      JoinAlphabet(fs);
      Some(Ip(Octet(fs[0]), Octet(fs[1]), Octet(fs[2]), Octet(fs[3])))
    else None
  }

  /** The text of an address parses back to that address. */
  lemma ParseFormat(ip: Ip)
    ensures ParseIp(FormatIp(ip)) == Some(ip)
  {
    DecimalValue(ip.a as nat);
    DecimalValue(ip.b as nat);
    DecimalValue(ip.c as nat);
    DecimalValue(ip.d as nat);
  }

  /** Address text is 7 to 15 bytes long, so it fits 16 bytes with its terminator. */
  lemma FormatLength(ip: Ip)
    ensures 7 <= |FormatIp(ip)| <= 15
  {
    var fs := [Decimal(ip.a as nat), Decimal(ip.b as nat), Decimal(ip.c as nat), Decimal(ip.d as nat)];
    assert Join(fs[3..]) == fs[3];
    assert Join(fs[2..]) == fs[2] + [DOT] + fs[3];
    assert Join(fs[1..]) == fs[1] + [DOT] + Join(fs[2..]);
  }

  /** Address text consists of digits and dots only. */
  lemma FormatAlphabet(ip: Ip)
    ensures forall k :: 0 <= k < |FormatIp(ip)| ==> IsDigit(FormatIp(ip)[k]) || FormatIp(ip)[k] == DOT
  {
    JoinAlphabet([Decimal(ip.a as nat), Decimal(ip.b as nat), Decimal(ip.c as nat), Decimal(ip.d as nat)]);
  }

  /** Text holding any byte other than a digit or a dot is not an address. */
  lemma NonDecimalRejected(t: seq<Byte>, k: int)
    requires 0 <= k < |t| && !IsDigit(t[k]) && t[k] != DOT
    ensures ParseIp(t) == None
  {
  }
}
