/** The label a ring point is hashed from: the node's name, a '#', and the point's number. */
module Labels {
  import opened Words
  import opened Names

  const HASH_SIGN: Byte := 35
  const ZERO_DIGIT: Byte := 48

  /** `write!(label, "{n}")`. */
  function Decimal(n: nat): seq<Byte> {
    if n < 10 then [ZERO_DIGIT + n] else Decimal(n / 10) + [ZERO_DIGIT + n % 10]
  }

  function Label(name: Name, point: nat): seq<Byte> {
    name + [HASH_SIGN] + Decimal(point)
  }

  function DecimalValue(s: seq<Byte>): int {
    if s == [] then 0 else 10 * DecimalValue(s[..|s| - 1]) + s[|s| - 1] - ZERO_DIGIT
  }

  /** Decimal text holds digits only and reads back as the number it was written from. */
  lemma {:induction false} DecimalReadsBack(n: nat)
    ensures HASH_SIGN !in Decimal(n)
    ensures DecimalValue(Decimal(n)) == n
  {
    if n >= 10 {
      DecimalReadsBack(n / 10);
    }
  }

  /** The text is digits only, with no zero in front of a number that is not zero itself. */
  lemma {:induction false} DecimalText(n: nat)
    ensures |Decimal(n)| >= 1 && forall i :: 0 <= i < |Decimal(n)| ==> 48 <= Decimal(n)[i] <= 57
    ensures n > 0 ==> Decimal(n)[0] != 48
    ensures |Decimal(n)| > 1 ==> n >= 10
  {
    if n >= 10 {
      DecimalText(n / 10);
    }
  }

  /** A label is the name, the byte 35 and the number, in that order. */
  lemma LabelText(name: Name, point: nat)
    ensures
      var text := Label(name, point);
      && |text| > |name| && text[..|name|] == name && text[|name|] == 35
      && text[|name| + 1..] == Decimal(point)
  {
  }

  /** A text splits at its last '#' in one way only. */
  lemma SplitsOnce(a: Name, d: seq<Byte>, b: Name, e: seq<Byte>)
    requires a + [HASH_SIGN] + d == b + [HASH_SIGN] + e
    requires HASH_SIGN !in d && HASH_SIGN !in e
    ensures a == b && d == e
  {
    if |a| < |b| {
      NotLater(a, d, b, e);
    } else if |b| < |a| {
      NotLater(b, e, a, d);
    } else {
      var s := a + [HASH_SIGN] + d;
      assert a == s[..|a|] && b == s[..|a|];
      assert d == s[|a| + 1..] && e == s[|a| + 1..];
    }
  }

  lemma NotLater(a: Name, d: seq<Byte>, b: Name, e: seq<Byte>)
    requires a + [HASH_SIGN] + d == b + [HASH_SIGN] + e && |a| < |b|
    ensures HASH_SIGN in d
  {
    assert (a + [HASH_SIGN] + d)[|b|] == d[|b| - |a| - 1];
  }

  /** Two labels are equal only if both the name and the number are: no name, with or without
      a '#' of its own, can spell another node's point. */
  lemma LabelInjective(a: Name, i: nat, b: Name, j: nat)
    ensures Label(a, i) == Label(b, j) <==> a == b && i == j
  {
    if Label(a, i) == Label(b, j) {
      DecimalReadsBack(i);
      DecimalReadsBack(j);
      SplitsOnce(a, Decimal(i), b, Decimal(j));
    }
  }
}
