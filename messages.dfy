/**
 * The messages the service's exceptions carry.  The not-found message embeds the
 * id as Java's string concatenation prints a long (Long.toString: optional minus
 * sign, decimal digits, no leading zeros).
 */
module Messages {

  /** The message of UnderagePersonException. */
  const UnderageMessage: string := "Registration of users under 18 years of age is not permitted"

  predicate IsDigit(c: char)
  {
    '0' <= c <= '9'
  }

  function DigitChar(d: int): (c: char)
    requires 0 <= d < 10
    ensures IsDigit(c) && c as int - '0' as int == d
  {
    (('0' as int) + d) as char
  }

  /** The decimal digits of n, most significant first. */
  function NatToDecimal(n: nat): (s: string)
    ensures |s| >= 1
    ensures forall i :: 0 <= i < |s| ==> IsDigit(s[i])
    ensures s[0] == '0' ==> n == 0
    decreases n
  {
    if n < 10 then [DigitChar(n)] else NatToDecimal(n / 10) + [DigitChar(n % 10)]
  }

  /** The value of a string of decimal digits: the reading that undoes NatToDecimal. */
  function DecimalValue(s: string): nat
    requires forall i :: 0 <= i < |s| ==> IsDigit(s[i])
  {
    if s == [] then 0
    else
      var last := s[|s| - 1];
      assert IsDigit(last);
      DecimalValue(s[..|s| - 1]) * 10 + (last as int - '0' as int)
  }

  lemma {:induction false} DecimalRoundTrip(n: nat)
    ensures DecimalValue(NatToDecimal(n)) == n
    decreases n
  {
    var s := NatToDecimal(n);
    if n >= 10 {
      DecimalRoundTrip(n / 10);
      assert s[..|s| - 1] == NatToDecimal(n / 10);
    }
  }

  /** Long.toString. */
  function LongToString(n: int): (s: string)
    ensures |s| >= 1
  {
    if n < 0 then "-" + NatToDecimal(-n) else NatToDecimal(n)
  }

  /** Different ids print differently. */
  lemma LongToStringInjective(a: int, b: int)
    requires LongToString(a) == LongToString(b)
    ensures a == b
  {
    var s := LongToString(a);
    if a < 0 {
      assert s[0] == '-' && !IsDigit(s[0]);
      assert b < 0;
      assert s[1..] == NatToDecimal(-a) == NatToDecimal(-b);
      DecimalRoundTrip(-a);
      DecimalRoundTrip(-b);
    } else {
      assert IsDigit(s[0]);
      assert b >= 0;
      DecimalRoundTrip(a);
      DecimalRoundTrip(b);
    }
  }

  /** The message of NotFoundException for a missing id. */
  function NotFoundMessage(id: int): (msg: string)
    ensures |msg| == 25 + |LongToString(id)|
    ensures msg[..11] == "User by id:"
    ensures msg[|msg| - 14..] == " was not found"
    ensures msg[11..|msg| - 14] == LongToString(id)
  {
    "User by id:" + LongToString(id) + " was not found"
  }

  /** The message identifies the id it was raised for. */
  lemma NotFoundMessageInjective(a: int, b: int)
    requires NotFoundMessage(a) == NotFoundMessage(b)
    ensures a == b
  {
    var m := NotFoundMessage(a);
    assert m[11..|m| - 14] == LongToString(a);
    assert NotFoundMessage(b)[11..|m| - 14] == LongToString(b);
    LongToStringInjective(a, b);
  }

  /** The message the service tests expect for id 1. */
  lemma NotFoundMessageForIdOne()
    ensures NotFoundMessage(1) == "User by id:1 was not found"
  {
  }
}
