// Text as Python has it, a sequence of code points (lone surrogates included), and the
// JSON values the codec works on.
module JsonText {
  datatype Option<+T> = None | Some(value: T)

  type CodePoint = c: int | 0 <= c < 0x110000
  type Text = seq<CodePoint>

  const QUOTE: CodePoint := 0x22
  const BACKSLASH: CodePoint := 0x5C
  const SMALL_U: CodePoint := 0x75
  const COMMA: CodePoint := 0x2C
  const COLON: CodePoint := 0x3A
  const MINUS: CodePoint := 0x2D
  const PLUS: CodePoint := 0x2B
  const DOT: CodePoint := 0x2E
  const ZERO: CodePoint := 0x30
  const OPEN_BRACKET: CodePoint := 0x5B
  const CLOSE_BRACKET: CodePoint := 0x5D
  const OPEN_BRACE: CodePoint := 0x7B
  const CLOSE_BRACE: CodePoint := 0x7D
  const NEWLINE: CodePoint := 0x0A

  const NULL_WORD: Text := [0x6E, 0x75, 0x6C, 0x6C]
  const TRUE_WORD: Text := [0x74, 0x72, 0x75, 0x65]
  const FALSE_WORD: Text := [0x66, 0x61, 0x6C, 0x73, 0x65]
  const NAN_WORD: Text := [0x4E, 0x61, 0x4E]
  const INFINITY_WORD: Text := [0x49, 0x6E, 0x66, 0x69, 0x6E, 0x69, 0x74, 0x79]

  predicate IsWhitespace(c: CodePoint) {
    c == 0x20 || c == 0x09 || c == 0x0A || c == 0x0D
  }

  predicate IsBlank(t: Text) {
    forall c :: c in t ==> IsWhitespace(c)
  }

  predicate IsDigit(c: CodePoint) {
    0x30 <= c <= 0x39
  }

  predicate IsExponent(c: CodePoint) {
    c == 0x65 || c == 0x45
  }

  // Surrogates take part in UTF-16 only.
  predicate IsHighSurrogate(c: CodePoint) {
    0xD800 <= c < 0xDC00
  }

  predicate IsLowSurrogate(c: CodePoint) {
    0xDC00 <= c < 0xE000
  }

  /* Numbers with a fraction or an exponent are kept as they are spelled: what float()
     makes of them is not modelled. */
  datatype Json =
    | Null
    | Bool(b: bool)
    | Int(n: int)
    | Float(lexeme: Text)
    | NaN
    | Infinity(negative: bool)
    | Str(text: Text)
    | List(items: seq<Json>)
    | Dict(pairs: seq<(Text, Json)>)

  // dict(pairs): a later pair with the same key replaces the value of the first.
  function DictOf(pairs: seq<(Text, Json)>): seq<(Text, Json)> {
    if pairs == [] then []
    else SetItem(DictOf(pairs[..|pairs| - 1]), pairs[|pairs| - 1].0, pairs[|pairs| - 1].1)
  }

  function SetItem(d: seq<(Text, Json)>, key: Text, value: Json): seq<(Text, Json)> {
    if d == [] then [(key, value)]
    else if d[0].0 == key then [(key, value)] + d[1..]
    else [d[0]] + SetItem(d[1..], key, value)
  }

  predicate DistinctKeys(pairs: seq<(Text, Json)>) {
    forall i, j :: 0 <= i < j < |pairs| ==> pairs[i].0 != pairs[j].0
  }

  lemma {:induction false} SetNewItem(d: seq<(Text, Json)>, key: Text, value: Json)
    requires forall i :: 0 <= i < |d| ==> d[i].0 != key
    ensures SetItem(d, key, value) == d + [(key, value)]
  {
    if d != [] {
      SetNewItem(d[1..], key, value);
      assert d == [d[0]] + d[1..];
    }
  }

  // Pairs with distinct keys are the dict.
  lemma {:induction false} DictOfDistinct(pairs: seq<(Text, Json)>)
    requires DistinctKeys(pairs)
    ensures DictOf(pairs) == pairs
  {
    if pairs != [] {
      var init, last := pairs[..|pairs| - 1], pairs[|pairs| - 1];
      DictOfDistinct(init);
      SetNewItem(init, last.0, last.1);
      assert pairs == init + [last];
    }
  }

  /** x stands in t at i. */
  predicate At(t: Text, i: nat, x: Text) {
    i + |x| <= |t| && t[i..i + |x|] == x
  }

  lemma AtConcat(t: Text, i: nat, x: Text, y: Text)
    requires At(t, i, x + y)
    ensures At(t, i, x) && At(t, i + |x|, y)
  {
    assert t[i..i + |x|] == (x + y)[..|x|];
    assert t[i + |x|..i + |x| + |y|] == (x + y)[|x|..];
  }

  lemma AtIndex(t: Text, i: nat, x: Text, k: nat)
    requires At(t, i, x) && k < |x|
    ensures t[i + k] == x[k]
  {
    assert t[i..i + |x|][k] == t[i + k];
  }

  // ---- Decimal and hexadecimal ---------------------------------------------------------

  /** str(n) for n >= 0. */
  function Decimal(n: nat): (r: Text)
    ensures r != [] && (forall c :: c in r ==> IsDigit(c))
    ensures r[0] == ZERO ==> n == 0 && |r| == 1
  {
    if n < 10 then [0x30 + n] else Decimal(n / 10) + [0x30 + n % 10]
  }

  function IntText(n: int): Text {
    if n < 0 then [MINUS] + Decimal(-n) else Decimal(n)
  }

  // int(digits)
  function NatOf(digits: Text): nat
    requires forall c :: c in digits ==> IsDigit(c)
  {
    if digits == [] then 0
    else
      assert IsDigit(digits[|digits| - 1]);
      NatOf(digits[..|digits| - 1]) * 10 + (digits[|digits| - 1] as int - 0x30)
  }

  lemma {:induction false} NatOfDecimal(n: nat)
    ensures NatOf(Decimal(n)) == n
  {
    var r := Decimal(n);
    if n < 10 {
      assert NatOf(r[..0]) == 0;
    } else {
      NatOfDecimal(n / 10);
      assert r[..|r| - 1] == Decimal(n / 10);
    }
  }

  function HexDigit(d: nat): CodePoint
    requires d < 16
  {
    if d < 10 then 0x30 + d else 0x61 + (d - 10)
  }

  function HexValue(c: CodePoint): Option<nat> {
    if 0x30 <= c <= 0x39 then Some(c - 0x30)
    else if 0x61 <= c <= 0x66 then Some(c - 0x61 + 10)
    else if 0x41 <= c <= 0x46 then Some(c - 0x41 + 10)
    else None
  }

  /** "%04x" % n */
  function Hex4(n: nat): (t: Text)
    requires n < 0x10000
    ensures |t| == 4
  {
    var q := n / 16;
    var r := q / 16;
    [HexDigit(r / 16), HexDigit(r % 16), HexDigit(q % 16), HexDigit(n % 16)]
  }

  /** int(digits, 16) for four hexadecimal digits. */
  function Hex4Value(digits: Text): (r: Option<nat>)
    requires |digits| == 4
    ensures r.Some? ==> r.value < 0x10000
  {
    var a, b, c, d := HexValue(digits[0]), HexValue(digits[1]), HexValue(digits[2]), HexValue(digits[3]);
    if a.Some? && b.Some? && c.Some? && d.Some? then
      Some(4096 * a.value + 256 * b.value + 16 * c.value + d.value)
    else None
  }

  lemma HexDigitValue(d: nat)
    requires d < 16
    ensures HexValue(HexDigit(d)) == Some(d)
  {
  }

  lemma Hex4RoundTrip(n: nat)
    requires n < 0x10000
    ensures Hex4Value(Hex4(n)) == Some(n)
  {
    var q := n / 16;
    var r := q / 16;
    HexDigitValue(r / 16);
    HexDigitValue(r % 16);
    HexDigitValue(q % 16);
    HexDigitValue(n % 16);
    hide HexValue, HexDigit;
    assert n == 16 * q + n % 16 && q == 16 * r + q % 16 && r == 16 * (r / 16) + r % 16;
  }
}
