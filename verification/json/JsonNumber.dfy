// What a number is (section 6 of RFC 8259), apart from how it is looked for.
module JsonNumber {
  import opened JsonText
  import opened JsonParse
  import opened JsonLayout

  predicate Digits(x: Text) {
    x != [] && forall c :: c in x ==> IsDigit(c)
  }

  predicate IntegerPart(x: Text) {
    x == [ZERO] || (Digits(x) && x[0] != ZERO)
  }

  predicate FractionPart(x: Text) {
    x == [] || (x[0] == DOT && Digits(x[1..]))
  }

  predicate ExponentPart(x: Text) {
    x == [] || (IsExponent(x[0]) && (Digits(x[1..]) || (|x| > 1 && (x[1] == PLUS || x[1] == MINUS) && Digits(x[2..]))))
  }

  predicate SignPart(x: Text) {
    x == [] || x == [MINUS]
  }

  ghost predicate IsNumber(x: Text) {
    exists sign, integer, fraction, exponent :: Parts(x, sign, integer, fraction, exponent)
  }

  ghost predicate Parts(x: Text, sign: Text, integer: Text, fraction: Text, exponent: Text) {
    x == sign + integer + fraction + exponent &&
    SignPart(sign) && IntegerPart(integer) && FractionPart(fraction) && ExponentPart(exponent)
  }

  // Without a fraction and an exponent.
  ghost predicate IsInteger(x: Text) {
    exists sign, integer :: Parts(x, sign, integer, [], [])
  }

  // ---- Digits ---------------------------------------------------------------------------------------

  lemma {:induction false} DigitsReach(t: Text, a: nat, b: nat)
    requires a <= b <= |t| && forall k :: a <= k < b ==> IsDigit(t[k])
    ensures b <= DigitsEnd(t, a) && (b < DigitsEnd(t, a) ==> IsDigit(t[b]))
    decreases b - a
  {
    if a < b {
      DigitsReach(t, a + 1, b);
    }
  }

  lemma DigitsSlice(t: Text, a: nat, b: nat)
    requires a < b <= |t|
    ensures Digits(t[a..b]) <==> forall k :: a <= k < b ==> IsDigit(t[k])
  {
    if Digits(t[a..b]) {
      forall k | a <= k < b ensures IsDigit(t[k]) {
        assert t[a..b][k - a] == t[k] && t[k] in t[a..b];
      }
    }
    if forall k :: a <= k < b ==> IsDigit(t[k]) {
      forall c | c in t[a..b] ensures IsDigit(c) {
        var k :| 0 <= k < b - a && t[a..b][k] == c;
        assert t[a + k] == c;
      }
    }
  }

  // ---- What is found is a number -----------------------------------------------------------------------

  lemma IntegerFound(t: Text, i: nat)
    requires i <= |t| && IntegerEnd(t, i).Some?
    ensures
      var j, e := if CharAt(t, i, MINUS) then i + 1 else i, IntegerEnd(t, i).value;
      i <= j < e <= |t| && SignPart(t[i..j]) && IntegerPart(t[j..e])
  {
    var j, e := if CharAt(t, i, MINUS) then i + 1 else i, IntegerEnd(t, i).value;
    assert t[i..j] == if j == i then [] else [MINUS];
    if t[j] == ZERO {
      assert t[j..e] == [ZERO];
    } else {
      DigitsSlice(t, j, e);
      assert t[j..e][0] == t[j];
    }
  }

  lemma FractionFound(t: Text, e: nat)
    requires e <= |t|
    ensures FractionPart(t[e..FractionEnd(t, e)])
  {
    var f := FractionEnd(t, e);
    if f > e {
      DigitsSlice(t, e + 1, f);
      assert t[e..f][0] == DOT && t[e..f][1..] == t[e + 1..f];
    }
  }

  lemma ExponentFound(t: Text, f: nat)
    requires f <= |t|
    ensures ExponentPart(t[f..ExponentEnd(t, f)])
  {
    var n := ExponentEnd(t, f);
    if n > f {
      var j := if CharAt(t, f + 1, MINUS) || CharAt(t, f + 1, PLUS) then f + 2 else f + 1;
      var x := t[f..n];
      DigitsSlice(t, j, n);
      assert x[0] == t[f] && x[j - f..] == t[j..n];
      assert f + 1 < n && x[1] == t[f + 1];
    }
  }

  // ---- What is a number is found ------------------------------------------------------------------------

  // A number that stands at i, cut into its parts.
  ghost predicate Cut(t: Text, i: nat, j: nat, e: nat, f: nat, n: nat) {
    i <= j <= e <= f <= n <= |t| &&
    SignPart(t[i..j]) && IntegerPart(t[j..e]) && FractionPart(t[e..f]) && ExponentPart(t[f..n])
  }

  lemma CutOf(t: Text, i: nat, n: nat) returns (j: nat, e: nat, f: nat)
    requires i <= n <= |t| && IsNumber(t[i..n])
    ensures Cut(t, i, j, e, f, n)
  {
    hide SignPart, IntegerPart, FractionPart, ExponentPart;
    var x := t[i..n];
    var sign, integer, fraction, exponent :| Parts(x, sign, integer, fraction, exponent);
    j := i + |sign|;
    e := j + |integer|;
    f := e + |fraction|;
    FourPieces(sign, integer, fraction, exponent);
    SliceOf(t, i, n, i, j);
    SliceOf(t, i, n, j, e);
    SliceOf(t, i, n, e, f);
    SliceOf(t, i, n, f, n);
  }

  lemma SliceOf(t: Text, i: nat, n: nat, a: nat, b: nat)
    requires i <= a <= b <= n <= |t|
    ensures t[i..n][a - i..b - i] == t[a..b]
  {
    var x := t[i..n][a - i..b - i];
    forall k | 0 <= k < b - a ensures x[k] == t[a..b][k] {
      assert x[k] == t[i..n][a - i + k];
    }
  }

  lemma FourPieces(a: Text, b: Text, c: Text, d: Text)
    ensures
      var x := a + b + c + d;
      x[..|a|] == a && x[|a|..|a| + |b|] == b && x[|a| + |b|..|a| + |b| + |c|] == c && x[|a| + |b| + |c|..] == d
  {
  }

  lemma CutIsNumber(t: Text, i: nat, j: nat, e: nat, f: nat, n: nat)
    requires Cut(t, i, j, e, f, n)
    ensures IsNumber(t[i..n]) && (e == n ==> IsInteger(t[i..n]))
  {
    hide SignPart, IntegerPart, FractionPart, ExponentPart;
    Joined(t, i, j, e);
    Joined(t, i, e, f);
    Joined(t, i, f, n);
    assert Parts(t[i..n], t[i..j], t[j..e], t[e..f], t[f..n]);
    if e == n {
      assert t[e..f] == [] && t[f..n] == [];
    }
  }

  lemma Joined(t: Text, a: nat, b: nat, c: nat)
    requires a <= b <= c <= |t|
    ensures t[a..b] + t[b..c] == t[a..c]
  {
  }

  // The digits behind the sign reach as far as they can, or nothing follows them.
  lemma IntegerReach(t: Text, i: nat, j: nat, e: nat)
    requires i <= j < e <= |t| && SignPart(t[i..j]) && IntegerPart(t[j..e])
    ensures IntegerEnd(t, i).Some? && e <= IntegerEnd(t, i).value && (e < IntegerEnd(t, i).value ==> IsDigit(t[e]))
    ensures j == if CharAt(t, i, MINUS) then i + 1 else i
  {
    assert t[j..e][0] == t[j] && t[j] in t[j..e];
    if i < j {
      assert t[i..j][0] == t[i] && |t[i..j]| == 1;
    }
    if t[j] == ZERO {
      assert |t[j..e]| == 1;
    } else {
      DigitsSlice(t, j, e);
      DigitsReach(t, j, e);
    }
  }

  lemma FractionReach(t: Text, e: nat, f: nat)
    requires e <= f <= |t| && FractionPart(t[e..f])
    ensures e < f ==> t[e] == DOT
    ensures f <= FractionEnd(t, e) && (e < f < FractionEnd(t, e) ==> IsDigit(t[f]))
    ensures e == f < FractionEnd(t, e) ==> t[f] == DOT
  {
    if e < f {
      assert t[e..f][0] == t[e] && t[e..f][1..] == t[e + 1..f];
      DigitsSlice(t, e + 1, f);
      DigitsReach(t, e + 1, f);
    }
  }

  lemma ExponentReach(t: Text, f: nat, n: nat)
    requires f <= n <= |t| && ExponentPart(t[f..n])
    ensures n <= ExponentEnd(t, f) && (f < n ==> IsExponent(t[f]))
  {
    if f < n {
      var x := t[f..n];
      assert x[0] == t[f] && |x| > 1 && x[1] == t[f + 1];
      if Digits(x[1..]) {
        assert x[1..] == t[f + 1..n] && x[1] in x[1..];
        DigitsSlice(t, f + 1, n);
        DigitsReach(t, f + 1, n);
      } else {
        assert x[2..] == t[f + 2..n];
        DigitsSlice(t, f + 2, n);
        DigitsReach(t, f + 2, n);
      }
    }
  }

  // No number that stands at i goes on behind the one that is found.
  lemma CutReach(t: Text, i: nat, j: nat, e: nat, f: nat, n: nat)
    requires Cut(t, i, j, e, f, n)
    ensures Number(t, i).Some? && n <= Number(t, i).value.end
  {
    IntegerReach(t, i, j, e);
    FractionReach(t, e, f);
    ExponentReach(t, f, n);
    var e' := IntegerEnd(t, i).value;
    if e < e' {
      assert IsDigit(t[e]);
    } else if f < FractionEnd(t, e) {
      assert e < f ==> IsDigit(t[f]);
    }
  }

  lemma NatOfSnoc(front: Text, c: CodePoint)
    requires (forall d :: d in front ==> IsDigit(d)) && IsDigit(c)
    ensures (forall d :: d in front + [c] ==> IsDigit(d)) && NatOf(front + [c]) == NatOf(front) * 10 + (c as int - 0x30)
  {
    var x := front + [c];
    assert x[..|x| - 1] == front && x[|x| - 1] == c;
  }

  lemma DecimalStep(q: nat, r: nat)
    requires r < 10
    ensures q > 0 ==> Decimal(q * 10 + r) == Decimal(q) + [0x30 + r]
    ensures Decimal(r) == [0x30 + r]
  {
    if q > 0 {
      LastDigit(q, r);
    }
  }

  lemma LastDigit(q: nat, r: nat)
    requires r < 10
    ensures (q * 10 + r) / 10 == q && (q * 10 + r) % 10 == r
  {
  }

  lemma {:induction false} DecimalOf(x: Text)
    requires IntegerPart(x)
    ensures (forall c :: c in x ==> IsDigit(c)) && Decimal(NatOf(x)) == x && (x[0] != ZERO ==> NatOf(x) > 0)
  {
    hide Decimal, NatOf;
    var n := |x| - 1;
    var front, c := x[..n], x[n];
    assert c in x && forall d :: d in front ==> d in x;
    assert x == front + [c] && IsDigit(c);
    NatOfSnoc(front, c);
    if n == 0 {
      NoDigits(front);
      DecimalStep(0, c as int - 0x30);
    } else {
      assert front[0] == x[0];
      DecimalOf(front);
      DecimalStep(NatOf(front), c as int - 0x30);
    }
  }

  lemma NoDigits(x: Text)
    requires x == []
    ensures NatOf(x) == 0
  {
  }

  lemma IntegerValue(x: Text, sign: Text, integer: Text)
    requires x == sign + integer && SignPart(sign) && IntegerPart(integer) && IntegerEnd(x, 0) == Some(|x|)
    ensures x == IntText(IntOf(x)) || (x == [MINUS, ZERO] && IntOf(x) == 0)
  {
    DecimalOf(integer);
    assert integer[0] in integer;
    if sign == [] {
      assert x == integer;
    } else {
      assert x[1..] == integer && x[0] == MINUS;
      if NatOf(integer) == 0 {
        assert integer == [ZERO];
      }
    }
  }

  /** At any place the longest piece that is a number is found, if there is one. It is an int exactly
      when it has no fraction and no exponent, and then its digits are the int's, but for "-0". */
  lemma NumberIs(t: Text, i: nat)
    requires i <= |t|
    ensures Number(t, i).Some? <==> exists n :: i <= n <= |t| && IsNumber(t[i..n])
    ensures Number(t, i).Some? ==>
      var r := Number(t, i).value;
      var x := t[i..r.end];
      IsNumber(x) && (forall n :: r.end < n <= |t| ==> !IsNumber(t[i..n])) &&
      if IsInteger(x) then r.value.Int? && (x == IntText(r.value.n) || (x == [MINUS, ZERO] && r.value.n == 0))
      else r.value == Float(x)
  {
    hide IsNumber, IsInteger;
    forall n | i <= n <= |t| && IsNumber(t[i..n]) ensures Number(t, i).Some? && n <= Number(t, i).value.end {
      var j, e, f := CutOf(t, i, n);
      CutReach(t, i, j, e, f, n);
    }
    if Number(t, i).Some? {
      NumberFound(t, i);
    }
  }

  lemma NumberFound(t: Text, i: nat)
    requires i <= |t| && Number(t, i).Some?
    ensures
      var r := Number(t, i).value;
      var x := t[i..r.end];
      IsNumber(x) &&
      if IsInteger(x) then r.value.Int? && (x == IntText(r.value.n) || (x == [MINUS, ZERO] && r.value.n == 0))
      else r.value == Float(x)
  {
    hide IsNumber, IsInteger, DigitsEnd, IntegerPart, FractionPart, ExponentPart, SignPart;
    var j, e := if CharAt(t, i, MINUS) then i + 1 else i, IntegerEnd(t, i).value;
    var f := FractionEnd(t, e);
    var n := ExponentEnd(t, f);
    IntegerFound(t, i);
    FractionFound(t, e);
    ExponentFound(t, f);
    CutIsNumber(t, i, j, e, f, n);
    if n == e {
      IntegerAlone(t, i, e);
      assert t[i..e] == t[i..j] + t[j..e];
      IntegerValue(t[i..e], t[i..j], t[j..e]);
    } else {
      NotInteger(t, i, j, e, n);
    }
  }

  // A fraction or an exponent does not start with a digit.
  lemma NotInteger(t: Text, i: nat, j: nat, e: nat, n: nat)
    requires i <= j < e < n <= |t| && SignPart(t[i..j]) && IntegerPart(t[j..e])
    requires FractionPart(t[e..FractionEnd(t, e)]) && n == ExponentEnd(t, FractionEnd(t, e)) && ExponentPart(t[FractionEnd(t, e)..n])
    ensures !IsInteger(t[i..n])
  {
    var f := FractionEnd(t, e);
    FractionReach(t, e, f);
    ExponentReach(t, f, n);
    var x := t[i..n];
    assert !IsDigit(t[e]) && x[e - i] == t[e] && e > i;
    if IsInteger(x) {
      IntegerDigits(x, e - i);
    }
  }

  lemma IntegerDigits(x: Text, k: nat)
    requires IsInteger(x) && 0 < k < |x|
    ensures IsDigit(x[k])
  {
    var sign, integer :| Parts(x, sign, integer, [], []);
    assert x == sign + integer;
    assert x[k] == integer[k - |sign|] && integer[k - |sign|] in integer;
  }

  /** And alone a text is read as a number to its end exactly when it is one. */
  lemma NumberOkIff(x: Text)
    ensures NumberOk(x) <==> IsNumber(x)
  {
    NumberIs(x, 0);
    assert x[0..|x|] == x;
  }
}
