// Base64 VLQ: numbers of any size as digits of five bits, and how a reader of source maps
// takes them apart.
module Vlq {
  datatype Option<+T> = None | Some(value: T)

  const VLQ_BASE := 32

  function Base64Digit(d: nat): char
    requires d < 64
  {
    if d < 26 then 'A' + d as char
    else if d < 52 then 'a' + (d - 26) as char
    else if d < 62 then '0' + (d - 52) as char
    else if d == 62 then '+'
    else '/'
  }

  function DigitValue(c: char): (r: Option<nat>)
    ensures r.Some? ==> r.value < 64
  {
    if 'A' <= c <= 'Z' then Some((c - 'A') as nat)
    else if 'a' <= c <= 'z' then Some((c - 'a') as nat + 26)
    else if '0' <= c <= '9' then Some((c - '0') as nat + 52)
    else if c == '+' then Some(62)
    else if c == '/' then Some(63)
    else None
  }

  lemma DigitRead(d: nat)
    requires d < 64
    ensures DigitValue(Base64Digit(d)) == Some(d)
  {
  }

  lemma DigitWritten(c: char)
    requires DigitValue(c).Some?
    ensures Base64Digit(DigitValue(c).value) == c
  {
  }

  // ---- Writing ----------------------------------------------------------------------------------

  // The sign goes into the lowest bit.
  function Signed(value: int): nat {
    if value < 0 then -value * 2 + 1 else value * 2
  }

  function Unsigned(n: nat): int {
    if n % 2 == 1 then -(n / 2) else n / 2
  }

  // The lowest five bits first; all but the last digit have the sixth bit set.
  function Digits(n: nat): string {
    if n < VLQ_BASE then [Base64Digit(n)] else [Base64Digit(n % VLQ_BASE + VLQ_BASE)] + Digits(n / VLQ_BASE)
  }

  const CAPITALS: string := "ABCDEFGHIJKLMNOPQRSTUVWXYZ"
  const SMALL: string := "abcdefghijklmnopqrstuvwxyz"
  const ALPHABET: string := CAPITALS + SMALL + "0123456789+/"

  function Power(k: nat): (r: nat)
    ensures r > 0
  {
    if k == 0 then 1 else 32 * Power(k - 1)
  }

  // The digit with the place k, and 32 more for all but the last one.
  function Place(n: nat, k: nat, size: nat): (r: nat)
    ensures r < 64
  {
    n / Power(k) % 32 + if k + 1 < size then 32 else 0
  }

  /** The number in digits to the base 32, the lowest first and no zero in the end, each as one
      character of the alphabet, in the upper half of it where there are more to come. */
  ghost predicate Spells(s: string, n: nat) {
    s != "" && n < Power(|s|) && (|s| > 1 ==> Power(|s| - 1) <= n) &&
    forall k :: 0 <= k < |s| ==> s[k] == ALPHABET[Place(n, k, |s|)]
  }

  lemma DigitOfAlphabet(d: nat)
    requires d < 64
    ensures Base64Digit(d) == ALPHABET[d]
  {
    var rest := "0123456789+/";
    assert |CAPITALS| == |SMALL| == 26 && |rest| == 12;
    assert ALPHABET[d] == if d < 26 then CAPITALS[d] else if d < 52 then SMALL[d - 26] else rest[d - 52];
    if d < 26 {
      assert CAPITALS[d] == 'A' + d as char;
    } else if d < 52 {
      assert SMALL[d - 26] == 'a' + (d - 26) as char;
    }
  }

  lemma Quotient(n: nat, d: nat, q: nat, r: nat)
    requires n == d * q + r && r < d
    ensures n / d == q
  {
    var p := n / d;
    assert n == d * p + n % d;
    if p < q {
      Larger(d, p, q);
    } else if p > q {
      Larger(d, q, p);
    }
  }

  lemma Larger(d: nat, a: nat, b: nat)
    requires a < b
    ensures d * a + d <= d * b
  {
    assert d * (a + 1) <= d * b;
  }

  lemma DivideTwice(n: nat, p: nat)
    requires p > 0
    ensures n / (32 * p) == n / 32 / p
  {
    var q := n / 32;
    var r := q / p;
    assert n == 32 * q + n % 32 && q == p * r + q % p;
    assert n == (32 * p) * r + (32 * (q % p) + n % 32);
    Quotient(n, 32 * p, r, 32 * (q % p) + n % 32);
  }

  lemma {:induction false} DigitsSpell(n: nat)
    ensures Spells(Digits(n), n)
  {
    hide Base64Digit, Spells;
    if n < 32 {
      OneDigit(n);
    } else {
      DigitsSpell(n / 32);
      OneDigitMore(n, Digits(n / 32));
    }
  }

  lemma OneDigit(n: nat)
    requires n < 32
    ensures Spells([Base64Digit(n)], n)
  {
    hide Base64Digit;
    DigitOfAlphabet(n);
    assert Power(1) == 32 && Power(0) == 1 && n / 1 == n;
    assert Place(n, 0, 1) == n;
  }

  lemma OneDigitMore(n: nat, rest: string)
    requires n >= 32 && Spells(rest, n / 32)
    ensures Spells([Base64Digit(n % 32 + 32)] + rest, n)
  {
    hide Base64Digit, Power, Place;
    var s := [Base64Digit(n % 32 + 32)] + rest;
    PowerStep(n, |rest|);
    DigitOfAlphabet(n % 32 + 32);
    FirstPlace(n, |s|);
    forall k | 0 < k < |s| ensures s[k] == ALPHABET[Place(n, k, |s|)] {
      NextPlace(n, k, |s|);
    }
  }

  lemma FirstPlace(n: nat, size: nat)
    requires size > 1
    ensures Place(n, 0, size) == n % 32 + 32
  {
    assert Power(0) == 1 && n / 1 == n;
  }

  lemma NextPlace(n: nat, k: nat, size: nat)
    requires 0 < k < size
    ensures Place(n, k, size) == Place(n / 32, k - 1, size - 1)
  {
    DivideTwice(n, Power(k - 1));
  }

  lemma PowerStep(n: nat, k: nat)
    requires k > 0 && n / 32 < Power(k) && (k > 1 ==> Power(k - 1) <= n / 32) && n >= 32
    ensures n < Power(k + 1) && Power(k) <= n
  {
    assert n < 32 * (n / 32) + 32 <= 32 * Power(k);
    assert k == 1 ==> Power(k) == 32 * Power(0) == 32;
  }

  /** The number in digits, with the sign as the lowest bit. */
  method EncodeVlq(value: int) returns (result: string)
    ensures result == Digits(Signed(value))
    ensures Spells(result, if value < 0 then 2 * -value + 1 else 2 * value)
  {
    DigitsSpell(Signed(value));
    var rest := if value < 0 then -value * 2 + 1 else value * 2;
    result := "";
    while true
      invariant rest >= 0 && result + Digits(rest) == Digits(Signed(value))
      decreases rest
    {
      var digit := rest % VLQ_BASE;
      var before := rest;
      rest := rest / VLQ_BASE;
      if rest > 0 {
        digit := digit + VLQ_BASE;
      }
      assert Digits(before) == [Base64Digit(digit)] + if rest > 0 then Digits(rest) else "";
      result := result + [Base64Digit(digit)];
      if rest <= 0 {
        break;
      }
    }
  }

  // ---- Reading ----------------------------------------------------------------------------------

  // A number at the start of s and what comes behind it.
  function ReadDigits(s: string): (r: Option<(nat, string)>)
    ensures r.Some? ==> |r.value.1| < |s|
  {
    if s == "" then None
    else
      match DigitValue(s[0])
      case None => None
      case Some(d) =>
        if d < VLQ_BASE then Some((d, s[1..]))
        else
          match ReadDigits(s[1..])
          case None => None
          case Some((n, rest)) => Some((d - VLQ_BASE + VLQ_BASE * n, rest))
  }

  function ReadAll(s: string): Option<seq<int>>
    decreases |s|
  {
    if s == "" then Some([])
    else
      match ReadDigits(s)
      case None => None
      case Some((n, rest)) =>
        match ReadAll(rest)
        case None => None
        case Some(values) => Some([Unsigned(n)] + values)
  }

  function Concatenated(values: seq<int>): string {
    if values == [] then "" else Digits(Signed(values[0])) + Concatenated(values[1..])
  }

  lemma {:induction false} ReadDigitsOf(n: nat, rest: string)
    ensures ReadDigits(Digits(n) + rest) == Some((n, rest))
  {
    if n < VLQ_BASE {
      DigitRead(n);
      assert ([Base64Digit(n)] + rest)[1..] == rest;
    } else {
      DigitRead(n % VLQ_BASE + VLQ_BASE);
      ReadDigitsOf(n / VLQ_BASE, rest);
      assert (Digits(n) + rest)[1..] == Digits(n / VLQ_BASE) + rest;
    }
  }

  lemma SignBack(value: int)
    ensures Unsigned(Signed(value)) == value
  {
  }

  /** Encodings one after the other, with nothing between them, are read as the numbers
      that were written. */
  lemma {:induction false} ReadAllOf(values: seq<int>)
    ensures ReadAll(Concatenated(values)) == Some(values)
  {
    if values != [] {
      LastDigit(Signed(values[0]));
      assert [values[0]] + values[1..] == values;
      ReadDigitsOf(Signed(values[0]), Concatenated(values[1..]));
      SignBack(values[0]);
      ReadAllOf(values[1..]);
    }
  }

  // A number without digits that add nothing.
  predicate Shortest(s: string) {
    s != "" && (|s| > 1 ==> DigitValue(s[|s| - 1]) != Some(0))
  }

  /** And a text that reads as one number is its encoding, unless its last digit adds
      nothing. */
  lemma {:induction false} OnlyEncoding(s: string, n: nat)
    requires ReadDigits(s) == Some((n, ""))
    ensures Shortest(s) <==> s == Digits(n)
  {
    hide Base64Digit, DigitValue;
    var d := DigitValue(s[0]).value;
    DigitWritten(s[0]);
    if d < VLQ_BASE {
      assert s == [s[0]];
    } else {
      var tail := s[1..];
      var m := ReadDigits(tail).value.0;
      OnlyEncoding(tail, m);
      LastDigit(m);
      assert s[|s| - 1] == tail[|tail| - 1];
      if m == 0 {
        assert |Digits(n)| == 1;
      } else {
        MoreDigits(d - VLQ_BASE, m);
        ConsEqual(s, Base64Digit(d), Digits(m));
      }
    }
  }

  lemma MoreDigits(d: nat, m: nat)
    requires d < VLQ_BASE && m > 0
    ensures Digits(d + VLQ_BASE * m) == [Base64Digit(d + VLQ_BASE)] + Digits(m)
  {
    SplitDigit(d + VLQ_BASE * m, d, m);
  }

  // Quotient and remainder are the only numbers of their kind.
  lemma SplitDigit(n: nat, d: nat, m: nat)
    requires d < VLQ_BASE && n == d + VLQ_BASE * m
    ensures n % VLQ_BASE == d && n / VLQ_BASE == m
  {
    var q, r := n / VLQ_BASE, n % VLQ_BASE;
    assert n == 32 * q + r && 0 <= r < 32 && n == 32 * m + d;
    assert 32 * (q - m) == d - r;
    assert -32 < 32 * (q - m) < 32;
  }

  lemma ConsEqual(s: string, c: char, rest: string)
    requires s != "" && s[0] == c
    ensures s == [c] + rest <==> s[1..] == rest
  {
    assert s == [s[0]] + s[1..];
  }

  // The last digit is zero only for zero.
  lemma {:induction false} LastDigit(n: nat)
    ensures Digits(n) != "" && (n > 0 ==> DigitValue(Digits(n)[|Digits(n)| - 1]) != Some(0))
    ensures n == 0 ==> Digits(n) == "A"
  {
    if n < VLQ_BASE {
      DigitRead(n);
    } else {
      LastDigit(n / VLQ_BASE);
    }
  }
}
