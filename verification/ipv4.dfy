/**
 * IPv4 addresses as the program sees them: four octets, the octet parse
 * applied to each dot-separated token, and dotted-decimal formatting.
 */
module IpV4 {
  import opened Wrappers
  import opened Text

  /** One part of an address, an unsigned 8-bit value. */
  type Octet = x: int | 0 <= x < 256

  /** An address as the 4-tuple of its octets, most significant first. */
  datatype Ip = Ip(o1: Octet, o2: Octet, o3: Octet, o4: Octet)

  /** Number of parts of an address (the size of the 4-tuple). */
  const PartsCount: nat := 4

  /** Separator between the octets of an address. */
  const PartDelimiter: char := '.'

  /** `x` comes before `y` in descending lexicographic order: the first
      octet where they differ is larger in `x`. */
  predicate Above(x: Ip, y: Ip)
  {
    x.o1 > y.o1
    || (x.o1 == y.o1 && x.o2 > y.o2)
    || (x.o1 == y.o1 && x.o2 == y.o2 && x.o3 > y.o3)
    || (x.o1 == y.o1 && x.o2 == y.o2 && x.o3 == y.o3 && x.o4 > y.o4)
  }

  /** At least one of the four octets equals `v`. */
  predicate HasOctet(ip: Ip, v: Octet)
  {
    ip.o1 == v || ip.o2 == v || ip.o3 == v || ip.o4 == v
  }

  /** Converts one token to an octet: the token must be a non-empty
      string of decimal digits whose value fits in 8 bits. */
  function ParseOctet(token: string): Option<Octet>
  {
    if token != [] && IsDigits(token) && DecimalValue(token) < 256
    then Some(DecimalValue(token))
    else None
  }

  /** Dotted-decimal text of an address. */
  function ToString(ip: Ip): (r: string)
    ensures '\t' !in r
  {
    ShowDecimal(ip.o1) + [PartDelimiter] + ShowDecimal(ip.o2) + [PartDelimiter]
      + ShowDecimal(ip.o3) + [PartDelimiter] + ShowDecimal(ip.o4)
  }

  /** Decimal text never contains a separator. */
  lemma DecimalHasNoSeparator(n: nat, sep: char)
    requires !IsDigit(sep)
    ensures sep !in ShowDecimal(n)
  {
  }

  /** The decimal text of a number is accepted as an octet exactly when
      the number fits in 8 bits. */
  lemma ParseOctetOfDecimal(n: nat)
    ensures ParseOctet(ShowDecimal(n)) == if n < 256 then Some(n) else None
  {
    ShowDecimalValue(n);
  }

  /** Splitting the formatted address at the dots gives back the decimal
      text of its four octets, in order. */
  lemma ToStringTokens(ip: Ip)
    ensures Split(ToString(ip), PartDelimiter)
         == [ShowDecimal(ip.o1), ShowDecimal(ip.o2), ShowDecimal(ip.o3), ShowDecimal(ip.o4)]
  {
    DecimalHasNoSeparator(ip.o1, PartDelimiter);
    DecimalHasNoSeparator(ip.o2, PartDelimiter);
    DecimalHasNoSeparator(ip.o3, PartDelimiter);
    DecimalHasNoSeparator(ip.o4, PartDelimiter);
    SplitFour(ShowDecimal(ip.o1), ShowDecimal(ip.o2), ShowDecimal(ip.o3), ShowDecimal(ip.o4), PartDelimiter);
  }

  /** Formatting is one-to-one: different addresses have different text. */
  lemma {:induction false} ToStringInjective(x: Ip, y: Ip)
    requires ToString(x) == ToString(y)
    ensures x == y
  {
    ToStringTokens(x);
    ToStringTokens(y);
    var tx := Split(ToString(x), PartDelimiter);
    assert tx[0] == ShowDecimal(x.o1) == ShowDecimal(y.o1);
    assert tx[1] == ShowDecimal(x.o2) == ShowDecimal(y.o2);
    assert tx[2] == ShowDecimal(x.o3) == ShowDecimal(y.o3);
    assert tx[3] == ShowDecimal(x.o4) == ShowDecimal(y.o4);
    ShowDecimalValue(x.o1); ShowDecimalValue(y.o1);
    ShowDecimalValue(x.o2); ShowDecimalValue(y.o2);
    ShowDecimalValue(x.o3); ShowDecimalValue(y.o3);
    ShowDecimalValue(x.o4); ShowDecimalValue(y.o4);
  }
}
