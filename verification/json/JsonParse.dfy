// The decoder in its simple form: skip all whitespace, look at one character, go on.
// Every text has a result here, a value with the index behind it or an error with its
// place; the decoder's unrolled loops are proved to give the same.
module JsonParse {
  import opened JsonText

  datatype Message =
    | ExpectingValue
    | UnterminatedString
    | InvalidControlCharacter
    | InvalidEscape
    | InvalidUnicodeEscape
    | ExpectingPropertyName
    | ExpectingColon
    | ExpectingCommaOrBrace
    | ExpectingValueOrBracket
    | ExpectingCommaOrBracket
    | ExtraData

  datatype Result<+T> = Ok(value: T, end: nat) | Error(message: Message, pos: nat)

  /** Where the whitespace from i on ends. A start behind the end counts as the end, as
      in a regular expression match. */
  function Skip(s: Text, i: nat): (r: nat)
    ensures r <= |s|
    ensures i <= |s| ==> i <= r
    ensures i <= |s| ==> forall k :: i <= k < r ==> IsWhitespace(s[k])
    ensures r < |s| ==> !IsWhitespace(s[r])
    decreases |s| - i
  {
    if i >= |s| then |s|
    else if IsWhitespace(s[i]) then Skip(s, i + 1)
    else i
  }

  predicate CharAt(s: Text, i: nat, c: CodePoint) {
    i < |s| && s[i] == c
  }

  // ---- Strings --------------------------------------------------------------------------

  function Unescaped(c: CodePoint): Option<CodePoint> {
    match c
    case 0x22 => Some(0x22)
    case 0x5C => Some(0x5C)
    case 0x2F => Some(0x2F)
    case 0x62 => Some(0x08)
    case 0x66 => Some(0x0C)
    case 0x6E => Some(0x0A)
    case 0x72 => Some(0x0D)
    case 0x74 => Some(0x09)
    case _ => None
  }

  // Four hexadecimal digits at i.
  function HexAt(s: Text, i: nat): Option<nat> {
    if i + 4 <= |s| then Hex4Value(s[i..i + 4]) else None
  }

  function Join(high: nat, low: nat): CodePoint
    requires 0xD800 <= high < 0xDC00 && 0xDC00 <= low < 0xE000
  {
    0x10000 + (high - 0xD800) * 1024 + (low - 0xDC00)
  }

  // Four characters that int() is tried on: there are four and they do not start "?x".
  predicate TriesHex(s: Text, i: nat) {
    i + 4 <= |s| && s[i + 1] != 0x78 && s[i + 1] != 0x58
  }

  /** A "\u" escape whose digits start at i: its code point and what follows it. A high
      surrogate is joined with a low one escaped right behind it. */
  function UnicodeEscape(s: Text, i: nat): (r: Result<CodePoint>)
    requires 2 <= i
    ensures r.Ok? ==> i + 4 <= r.end <= |s|
  {
    if HexAt(s, i).None? then Error(InvalidUnicodeEscape, i - 2)
    else
      var high := HexAt(s, i).value;
      var next := i + 4;
      if IsHighSurrogate(high) && CharAt(s, next, BACKSLASH) && CharAt(s, next + 1, SMALL_U) && TriesHex(s, next + 2) then
        var low := HexAt(s, next + 2);
        if low.None? then Error(InvalidUnicodeEscape, next)
        else if IsLowSurrogate(low.value) then Ok(Join(high, low.value), next + 6)
        else Ok(high, next)
      else Ok(high, next)
  }

  /** What stands behind a backslash: its code point and what follows it. */
  function Escape(s: Text, i: nat, begin: nat): (r: Result<CodePoint>)
    requires 0 < i
    ensures r.Ok? ==> i < r.end <= |s|
  {
    if i >= |s| then Error(UnterminatedString, begin)
    else if s[i] == SMALL_U then UnicodeEscape(s, i + 1)
    else
      match Unescaped(s[i])
      case Some(c) => Ok(c, i + 1)
      case None => Error(InvalidEscape, i)
  }

  /** The rest of a string from i on, behind the characters in `acc`; the opening quote
      stands at `begin`. */
  function ScanString(s: Text, i: nat, begin: nat, strict: bool, acc: Text): (r: Result<Text>)
    ensures r.Ok? ==> i < r.end <= |s|
    decreases |s| - i
  {
    if i >= |s| then Error(UnterminatedString, begin)
    else if s[i] == QUOTE then Ok(acc, i + 1)
    else if s[i] == BACKSLASH then
      match Escape(s, i + 1, begin)
      case Ok(c, end) => ScanString(s, end, begin, strict, acc + [c])
      case Error(m, pos) => Error(m, pos)
    else if s[i] < 0x20 && strict then Error(InvalidControlCharacter, i + 1)
    else ScanString(s, i + 1, begin, strict, acc + [s[i]])
  }

  // ---- Numbers --------------------------------------------------------------------------

  function DigitsEnd(s: Text, i: nat): (r: nat)
    requires i <= |s|
    ensures i <= r <= |s|
    ensures forall k :: i <= k < r ==> IsDigit(s[k])
    ensures r < |s| ==> !IsDigit(s[r])
    decreases |s| - i
  {
    if i < |s| && IsDigit(s[i]) then DigitsEnd(s, i + 1) else i
  }

  // -?(0|[1-9]\d*)
  function IntegerEnd(s: Text, i: nat): (r: Option<nat>)
    requires i <= |s|
    ensures r.Some? ==> i < r.value <= |s|
  {
    var j := if CharAt(s, i, MINUS) then i + 1 else i;
    if j >= |s| || !IsDigit(s[j]) then None
    else if s[j] == ZERO then Some(j + 1)
    else Some(DigitsEnd(s, j))
  }

  // (\.\d+)?
  function FractionEnd(s: Text, i: nat): (r: nat)
    requires i <= |s|
    ensures i <= r <= |s|
  {
    if CharAt(s, i, DOT) && DigitsEnd(s, i + 1) > i + 1 then DigitsEnd(s, i + 1) else i
  }

  // ([eE][-+]?\d+)?
  function ExponentEnd(s: Text, i: nat): (r: nat)
    requires i <= |s|
    ensures i <= r <= |s|
  {
    if i < |s| && IsExponent(s[i]) then
      var j := if CharAt(s, i + 1, MINUS) || CharAt(s, i + 1, PLUS) then i + 2 else i + 1;
      if DigitsEnd(s, j) > j then DigitsEnd(s, j) else i
    else i
  }

  function IntOf(s: Text): int
    requires IntegerEnd(s, 0) == Some(|s|)
  {
    if s[0] == MINUS then 0 - NatOf(s[1..]) as int else NatOf(s)
  }

  function Number(s: Text, i: nat): (r: Option<Result<Json>>)
    requires i <= |s|
    ensures r.Some? ==> r.value.Ok? && i < r.value.end <= |s|
  {
    match IntegerEnd(s, i)
    case None => None
    case Some(e) =>
      var end := ExponentEnd(s, FractionEnd(s, e));
      if end > e then Some(Ok(Float(s[i..end]), end))
      else
        IntegerAlone(s, i, e);
        Some(Ok(Int(IntOf(s[i..e])), e))
  }

  // The matched part of an integer is an integer by itself.
  lemma IntegerAlone(s: Text, i: nat, e: nat)
    requires i <= |s| && IntegerEnd(s, i) == Some(e)
    ensures IntegerEnd(s[i..e], 0) == Some(e - i)
  {
    var t := s[i..e];
    var j := if t[0] == MINUS then 1 else 0;
    assert t[j] == s[i + j];
    if t[j] != ZERO {
      forall k | j <= k < |t| ensures IsDigit(t[k]) {
        assert t[k] == s[i + k];
      }
      AllDigitsEnd(t, j);
    }
  }

  lemma {:induction false} AllDigitsEnd(t: Text, j: nat)
    requires j <= |t| && forall k :: j <= k < |t| ==> IsDigit(t[k])
    ensures DigitsEnd(t, j) == |t|
    decreases |t| - j
  {
    if j < |t| {
      AllDigitsEnd(t, j + 1);
    }
  }

  // ---- Values ---------------------------------------------------------------------------

  function ParseValue(s: Text, i: nat, strict: bool): (r: Result<Json>)
    ensures r.Ok? ==> i < r.end <= |s|
    decreases |s| - i, 1
  {
    if i >= |s| then Error(ExpectingValue, i)
    else if s[i] == QUOTE then
      match ScanString(s, i + 1, i, strict, [])
      case Ok(t, end) => Ok(Str(t), end)
      case Error(m, pos) => Error(m, pos)
    else if s[i] == OPEN_BRACE then ParseObject(s, i + 1, strict)
    else if s[i] == OPEN_BRACKET then ParseArray(s, i + 1, strict)
    else if At(s, i, NULL_WORD) then Ok(Null, i + 4)
    else if At(s, i, TRUE_WORD) then Ok(Bool(true), i + 4)
    else if At(s, i, FALSE_WORD) then Ok(Bool(false), i + 5)
    else
      match Number(s, i)
      case Some(r) => r
      case None =>
        if At(s, i, NAN_WORD) then Ok(NaN, i + 3)
        else if At(s, i, INFINITY_WORD) then Ok(Infinity(false), i + 8)
        else if At(s, i, [MINUS] + INFINITY_WORD) then Ok(Infinity(true), i + 9)
        else Error(ExpectingValue, i)
  }

  function ParseArray(s: Text, i: nat, strict: bool): (r: Result<Json>)
    requires i <= |s|
    ensures r.Ok? ==> i < r.end <= |s|
    decreases |s| - i, 3
  {
    var e := Skip(s, i);
    if e == |s| then Error(ExpectingValueOrBracket, e)
    else if s[e] == CLOSE_BRACKET then Ok(List([]), e + 1)
    else ParseElements(s, e, strict, [])
  }

  /** The elements from i on, behind those in `values`. */
  function ParseElements(s: Text, i: nat, strict: bool, values: seq<Json>): (r: Result<Json>)
    requires i <= |s|
    ensures r.Ok? ==> i < r.end <= |s|
    decreases |s| - i, 2
  {
    match ParseValue(s, i, strict)
    case Error(m, pos) => Error(m, pos)
    case Ok(v, end) =>
      var e := Skip(s, end);
      if CharAt(s, e, CLOSE_BRACKET) then Ok(List(values + [v]), e + 1)
      else if CharAt(s, e, COMMA) then ParseElements(s, Skip(s, e + 1), strict, values + [v])
      else Error(ExpectingCommaOrBracket, e)
  }

  function ParseObject(s: Text, i: nat, strict: bool): (r: Result<Json>)
    requires i <= |s|
    ensures r.Ok? ==> i < r.end <= |s|
    decreases |s| - i, 3
  {
    var e := Skip(s, i);
    if CharAt(s, e, CLOSE_BRACE) then Ok(Dict([]), e + 1)
    else if CharAt(s, e, QUOTE) then ParseMembers(s, e + 1, strict, [])
    else Error(ExpectingPropertyName, e)
  }

  /** A name, its colon and the whitespace behind it; the name starts at i. */
  function ParseName(s: Text, i: nat, strict: bool): (r: Result<Text>)
    requires 0 < i <= |s|
    ensures r.Ok? ==> i < r.end <= |s|
  {
    match ScanString(s, i, i - 1, strict, [])
    case Error(m, pos) => Error(m, pos)
    case Ok(key, keyEnd) =>
      var colon := Skip(s, keyEnd);
      if CharAt(s, colon, COLON) then Ok(key, Skip(s, colon + 1)) else Error(ExpectingColon, colon)
  }

  /** The members behind those in `pairs`; the first name starts at i. */
  function ParseMembers(s: Text, i: nat, strict: bool, pairs: seq<(Text, Json)>): (r: Result<Json>)
    requires 0 < i <= |s|
    ensures r.Ok? ==> i < r.end <= |s|
    decreases |s| - i, 2
  {
    match ParseName(s, i, strict)
    case Error(m, pos) => Error(m, pos)
    case Ok(key, valueStart) =>
      match ParseValue(s, valueStart, strict)
      case Error(m, pos) => Error(m, pos)
      case Ok(v, end) =>
        var e := Skip(s, end);
        if CharAt(s, e, CLOSE_BRACE) then Ok(Dict(DictOf(pairs + [(key, v)])), e + 1)
        else if !CharAt(s, e, COMMA) then Error(ExpectingCommaOrBrace, e)
        else
          var q := Skip(s, e + 1);
          if CharAt(s, q, QUOTE) then ParseMembers(s, q + 1, strict, pairs + [(key, v)])
          else Error(ExpectingPropertyName, q)
  }

  /** JSONDecoder.decode */
  function Decode(s: Text, strict: bool): Result<Json> {
    match ParseValue(s, Skip(s, 0), strict)
    case Error(m, pos) => Error(m, pos)
    case Ok(v, end) =>
      var e := Skip(s, end);
      if e == |s| then Ok(v, e) else Error(ExtraData, e)
  }
}
