// What the encoder writes for a tree of values, and that the decoder reads it back.
module JsonEncode {
  import opened JsonText
  import opened JsonParse
  import opened JsonLayout

  // A separator is a comma or a colon with whitespace around it.
  datatype Separator = Separator(before: Text, after: Text)

  datatype Options = Options(
    ascii: bool, html: bool, indent: Option<Text>, itemSeparator: Separator, keySeparator: Separator)

  predicate OptionsOk(o: Options) {
    (o.indent.Some? ==> IsBlank(o.indent.value)) &&
    IsBlank(o.itemSeparator.before) && IsBlank(o.itemSeparator.after) &&
    IsBlank(o.keySeparator.before) && IsBlank(o.keySeparator.after)
  }

  function SeparatorText(s: Separator, c: CodePoint): Text {
    s.before + [c] + s.after
  }

  // ---- Strings ----------------------------------------------------------------------------

  function ShortEscape(c: CodePoint): Option<CodePoint> {
    match c
    case 0x5C => Some(0x5C)
    case 0x22 => Some(0x22)
    case 0x08 => Some(0x62)
    case 0x0C => Some(0x66)
    case 0x0A => Some(0x6E)
    case 0x0D => Some(0x72)
    case 0x09 => Some(0x74)
    case _ => None
  }

  function UnicodeText(n: nat): Text
    requires n < 0x10000
  {
    [BACKSLASH, SMALL_U] + Hex4(n)
  }

  // ESCAPE and ESCAPE_ASCII: the characters that are replaced.
  predicate Escaped(c: CodePoint, ascii: bool) {
    c == QUOTE || c == BACKSLASH || c < 0x20 || (if ascii then c > 0x7E else c == 0x2028 || c == 0x2029)
  }

  /** encode_basestring and py_encode_basestring_ascii on one character. Outside the first
      plane the ASCII form writes two surrogates: 0xD800 | n >> 10 and 0xDC00 | n & 0x3FF,
      which is the same as adding since the bits do not overlap. */
  function EscapeText(c: CodePoint, ascii: bool): Text {
    if !Escaped(c, ascii) then [c]
    else if ShortEscape(c).Some? then [BACKSLASH, ShortEscape(c).value]
    else if c < 0x10000 then UnicodeText(c)
    else
      var n := c - 0x10000;
      UnicodeText(0xD800 + n / 1024) + UnicodeText(0xDC00 + n % 1024)
  }

  predicate HtmlUnsafe(c: CodePoint) {
    c == 0x26 || c == 0x3C || c == 0x3E
  }

  // JSONEncoderForHTML.iterencode: replace &, < and > in what was written.
  function HtmlReplace(t: Text): Text {
    if t == [] then []
    else (if HtmlUnsafe(t[0]) then UnicodeText(t[0]) else [t[0]]) + HtmlReplace(t[1..])
  }

  function CharText(c: CodePoint, o: Options): Text {
    if o.html then HtmlReplace(EscapeText(c, o.ascii)) else EscapeText(c, o.ascii)
  }

  function CharsText(s: Text, o: Options): Text {
    if s == [] then [] else CharText(s[0], o) + CharsText(s[1..], o)
  }

  function EncodeString(s: Text, o: Options): Text {
    [QUOTE] + CharsText(s, o) + [QUOTE]
  }

  function UnitsFor(s: Text, o: Options): seq<Unit> {
    if s == [] then [] else [Unit(s[0], CharText(s[0], o))] + UnitsFor(s[1..], o)
  }

  lemma ShortUnescapes(c: CodePoint)
    requires ShortEscape(c).Some?
    ensures Unescaped(ShortEscape(c).value) == Some(c)
  {
  }

  lemma UnicodeUnit(c: CodePoint)
    requires c < 0x10000
    ensures HexOk(c, UnicodeText(c))
  {
    Hex4RoundTrip(c);
    assert UnicodeText(c)[2..6] == Hex4(c);
  }

  lemma PairUnit(c: CodePoint)
    requires c >= 0x10000
    ensures
      var n := c - 0x10000;
      n / 1024 < 0x400 && PairOk(c, UnicodeText(0xD800 + n / 1024) + UnicodeText(0xDC00 + n % 1024))
  {
    var n := c - 0x10000;
    var high, low := 0xD800 + n / 1024, 0xDC00 + n % 1024;
    Hex4RoundTrip(high);
    Hex4RoundTrip(low);
    var text := UnicodeText(high) + UnicodeText(low);
    assert text[2..6] == Hex4(high) && text[8..12] == Hex4(low);
    assert n == 1024 * (n / 1024) + n % 1024;
    assert PairOk(c, text);
  }

  lemma {:induction false} HtmlKeeps(t: Text)
    requires forall c :: c in t ==> !HtmlUnsafe(c)
    ensures HtmlReplace(t) == t
  {
    if t != [] {
      HtmlKeeps(t[1..]);
    }
  }

  lemma Hex4Safe(n: nat)
    requires n < 0x10000
    ensures forall c :: c in Hex4(n) ==> 0x30 <= c <= 0x66 && !HtmlUnsafe(c)
  {
  }

  lemma UnicodeTextSafe(n: nat)
    requires n < 0x10000
    ensures forall c :: c in UnicodeText(n) ==> 0x20 <= c <= 0x7E && !HtmlUnsafe(c)
  {
    Hex4Safe(n);
  }

  // What HtmlReplace leaves of a character's text.
  lemma CharTextCases(c: CodePoint, o: Options)
    ensures CharText(c, o) == if o.html && HtmlUnsafe(c) then UnicodeText(c) else EscapeText(c, o.ascii)
  {
    var t := EscapeText(c, o.ascii);
    if o.html {
      if HtmlUnsafe(c) {
        assert t == [c] && t[1..] == [];
        assert HtmlReplace(t) == UnicodeText(c) + HtmlReplace([]);
      } else {
        if Escaped(c, o.ascii) && ShortEscape(c).None? {
          if c < 0x10000 {
            UnicodeTextSafe(c);
          } else {
            var n := c - 0x10000;
            UnicodeTextSafe(0xD800 + n / 1024);
            UnicodeTextSafe(0xDC00 + n % 1024);
          }
        }
        HtmlKeeps(t);
      }
    }
  }

  lemma EscapeUnitOk(c: CodePoint, ascii: bool, strict: bool)
    ensures UnitOk(Unit(c, EscapeText(c, ascii)), strict)
  {
    hide HexOk, PairOk, UnicodeText;
    if c < 0x10000 {
      UnicodeUnit(c);
    } else {
      PairUnit(c);
    }
    if ShortEscape(c).Some? {
      ShortUnescapes(c);
    }
  }

  lemma SurrogateText(c: CodePoint, o: Options)
    requires IsHighSurrogate(c) || IsLowSurrogate(c)
    ensures CharText(c, o) == if o.ascii then UnicodeText(c) else [c]
  {
    CharTextCases(c, o);
  }

  /** Every form spells a character so that it is read back. */
  lemma CharUnitOk(c: CodePoint, o: Options, strict: bool)
    ensures UnitOk(Unit(c, CharText(c, o)), strict)
  {
    hide CharText, EscapeText, UnicodeText, HexOk, PairOk;
    CharTextCases(c, o);
    if o.html && HtmlUnsafe(c) {
      UnicodeUnit(c);
    } else {
      EscapeUnitOk(c, o.ascii, strict);
    }
  }

  // No character stands as a high surrogate with a low one behind it.
  predicate Unsplit(s: Text) {
    forall k :: 0 <= k < |s| - 1 ==> !(IsHighSurrogate(s[k]) && IsLowSurrogate(s[k + 1]))
  }

  // The ASCII form has one spelling for a character and for its two surrogates.
  predicate StringKept(s: Text, o: Options) {
    o.ascii ==> Unsplit(s)
  }

  lemma {:induction false} UnitsForOk(s: Text, o: Options, strict: bool)
    requires StringKept(s, o)
    ensures UnitsOk(UnitsFor(s, o), strict) && Chars(UnitsFor(s, o)) == s && UnitsText(UnitsFor(s, o)) == CharsText(s, o)
  {
    hide CharText, UnitOk, UnitsOk, HexHigh, HexLow, CharsText, UnitsText, Chars;
    if s == [] {
      NoUnitsFor(o, strict);
    } else {
      var u, rest := Unit(s[0], CharText(s[0], o)), UnitsFor(s[1..], o);
      CharUnitOk(s[0], o, strict);
      if IsHighSurrogate(s[0]) {
        SurrogateText(s[0], o);
      }
      UnitsForOk(s[1..], o, strict);
      assert |s| > 1 ==> rest != [] && rest[0].c == s[1];
      if rest != [] {
        NoPair(u, rest[0], o);
      }
      FirstUnit(u, rest, strict);
      CharsTextHead(s, o);
      DropQuote(u.text, UnitsText(rest), UnitsText([u] + rest));
      assert [s[0]] + s[1..] == s;
    }
  }

  lemma NoUnitsFor(o: Options, strict: bool)
    ensures UnitsOk(UnitsFor([], o), strict) && Chars(UnitsFor([], o)) == [] && UnitsText(UnitsFor([], o)) == CharsText([], o)
  {
  }

  lemma CharsTextHead(s: Text, o: Options)
    requires s != []
    ensures CharsText(s, o) == CharText(s[0], o) + CharsText(s[1..], o)
  {
  }

  lemma DropQuote(a: Text, b: Text, c: Text)
    requires a + (b + [QUOTE]) == c + [QUOTE]
    ensures a + b == c
  {
    assert (a + (b + [QUOTE]))[..|c|] == a + b && (c + [QUOTE])[..|c|] == c;
  }

  // Only the ASCII form escapes surrogates.
  lemma NoPair(u: Unit, v: Unit, o: Options)
    requires IsHighSurrogate(u.c) ==> u.text == if o.ascii then UnicodeText(u.c) else [u.c]
    requires o.ascii ==> !(IsHighSurrogate(u.c) && IsLowSurrogate(v.c))
    ensures !(HexHigh(u) && HexLow(v))
  {
  }

  /** The ASCII form has printable ASCII characters only, the other one no line separators of
      JavaScript, and the HTML form no &, < or >. */
  lemma {:induction false} EncodedStringChars(s: Text, o: Options)
    ensures forall c :: c in EncodeString(s, o) ==> CharAllowed(c, o)
  {
    CharsTextChars(s, o);
  }

  predicate CharAllowed(c: CodePoint, o: Options) {
    (if o.ascii then 0x20 <= c <= 0x7E else c >= 0x20 && c != 0x2028 && c != 0x2029) && (o.html ==> !HtmlUnsafe(c))
  }

  lemma CharTextChars(c: CodePoint, o: Options)
    ensures forall d :: d in CharText(c, o) ==> CharAllowed(d, o)
  {
    hide Hex4;
    CharTextCases(c, o);
    if c < 0x10000 {
      UnicodeTextSafe(c);
    } else {
      var n := c - 0x10000;
      UnicodeTextSafe(0xD800 + n / 1024);
      UnicodeTextSafe(0xDC00 + n % 1024);
    }
  }

  lemma HexDigitOnly(c: CodePoint, d: nat)
    requires HexValue(c) == Some(d) && !(0x41 <= c <= 0x46)
    ensures d < 16 && c == HexDigit(d)
  {
  }

  // Four digits without capitals are the digits of their number.
  lemma Hex4Only(digits: Text)
    requires |digits| == 4 && Hex4Value(digits).Some? && forall c :: c in digits ==> !(0x41 <= c <= 0x46)
    ensures digits == Hex4(Hex4Value(digits).value)
  {
    HexParts(digits);
    hide HexValue, HexDigit, Hex4, Hex4Value;
    var a, b, c, d := HexValue(digits[0]), HexValue(digits[1]), HexValue(digits[2]), HexValue(digits[3]);
    assert digits[0] in digits && digits[1] in digits && digits[2] in digits && digits[3] in digits;
    HexDigitOnly(digits[0], a.value);
    HexDigitOnly(digits[1], b.value);
    HexDigitOnly(digits[2], c.value);
    HexDigitOnly(digits[3], d.value);
    FourDigits(a.value, b.value, c.value, d.value);
    assert digits == [digits[0], digits[1], digits[2], digits[3]];
  }

  lemma HexParts(digits: Text)
    requires |digits| == 4 && Hex4Value(digits).Some?
    ensures
      var a, b, c, d := HexValue(digits[0]), HexValue(digits[1]), HexValue(digits[2]), HexValue(digits[3]);
      a.Some? && b.Some? && c.Some? && d.Some? &&
      Hex4Value(digits).value == 4096 * a.value + 256 * b.value + 16 * c.value + d.value
  {
    hide HexValue;
  }

  lemma FourDigits(a: nat, b: nat, c: nat, d: nat)
    requires a < 16 && b < 16 && c < 16 && d < 16
    ensures
      var n := 4096 * a + 256 * b + 16 * c + d;
      n < 0x10000 && Hex4(n) == [HexDigit(a), HexDigit(b), HexDigit(c), HexDigit(d)]
  {
    hide HexDigit;
    var n := 4096 * a + 256 * b + 16 * c + d;
    assert n / 16 == 256 * a + 16 * b + c && n % 16 == d;
    assert (256 * a + 16 * b + c) / 16 == 16 * a + b && (256 * a + 16 * b + c) % 16 == c;
    assert (16 * a + b) / 16 == a && (16 * a + b) % 16 == b;
  }

  // A spelling with small letters in its hexadecimal digits, where it has such.
  predicate SmallHex(text: Text) {
    |text| >= 6 ==> forall c :: c in text ==> !(0x41 <= c <= 0x46)
  }

  /** No spelling of a character that keeps to the allowed characters is shorter, and only this one is
      as short, but for capitals as hexadecimal digits. */
  lemma ShortestSpelling(c: CodePoint, o: Options, text: Text)
    requires UnitOk(Unit(c, text), true) && forall d :: d in text ==> CharAllowed(d, o)
    ensures |CharText(c, o)| <= |text|
    ensures |CharText(c, o)| == |text| && SmallHex(text) ==> text == CharText(c, o)
  {
    hide CharText, Hex4Value, Hex4;
    CharTextCases(c, o);
    if text == [c] {
      assert CharAllowed(c, o);
    } else if |text| == 2 {
      ShortEscapeOnly(c, text[1]);
    } else if |text| == 6 {
      if SmallHex(text) {
        HexSpelling(c, text);
      }
    } else if SmallHex(text) {
      PairSpelling(c, text);
    }
  }

  lemma ShortEscapeOnly(c: CodePoint, d: CodePoint)
    requires Unescaped(d) == Some(c)
    ensures c == 0x2F || ShortEscape(c) == Some(d)
    ensures !HtmlUnsafe(c)
  {
  }

  lemma HexSpelling(c: CodePoint, text: Text)
    requires HexOk(c, text) && SmallHex(text)
    ensures c < 0x10000 && text == UnicodeText(c)
  {
    forall d | d in text[2..6] ensures d in text {
    }
    Hex4Only(text[2..6]);
    assert text == text[..2] + text[2..6];
  }

  lemma PairSpelling(c: CodePoint, text: Text)
    requires PairOk(c, text) && SmallHex(text)
    ensures
      var n := c - 0x10000;
      0 <= n && n / 1024 < 0x400 && text == UnicodeText(0xD800 + n / 1024) + UnicodeText(0xDC00 + n % 1024)
  {
    hide Hex4Value, Hex4;
    var high, low := Hex4Value(text[2..6]).value, Hex4Value(text[8..12]).value;
    forall d | d in text[2..6] || d in text[8..12] ensures d in text {
    }
    Hex4Only(text[2..6]);
    Hex4Only(text[8..12]);
    TwoHalves(high - 0xD800, low - 0xDC00);
    TwoEscapes(text);
  }

  lemma TwoEscapes(text: Text)
    requires |text| == 12
    ensures text == [text[0], text[1]] + text[2..6] + ([text[6], text[7]] + text[8..12])
  {
  }

  lemma {:induction false} CharsTextChars(s: Text, o: Options)
    ensures forall c :: c in CharsText(s, o) ==> CharAllowed(c, o)
  {
    hide CharText, CharAllowed;
    if s != [] {
      CharsTextChars(s[1..], o);
      CharTextChars(s[0], o);
    }
  }

  function JoinSplit(s: Text): Text {
    if |s| > 1 && IsHighSurrogate(s[0]) && IsLowSurrogate(s[1]) then [Join(s[0], s[1])] + JoinSplit(s[2..])
    else if s == [] then []
    else [s[0]] + JoinSplit(s[1..])
  }

  // Where it starts with a low surrogate, so did the text.
  lemma {:induction false} JoinSplitUnsplit(s: Text)
    ensures Unsplit(JoinSplit(s)) && |JoinSplit(s)| <= |s| && (JoinSplit(s) == s <==> Unsplit(s))
    ensures s != [] ==> JoinSplit(s) != [] && (IsLowSurrogate(JoinSplit(s)[0]) ==> JoinSplit(s)[0] == s[0])
  {
    if |s| > 1 && IsHighSurrogate(s[0]) && IsLowSurrogate(s[1]) {
      JoinSplitUnsplit(s[2..]);
      UnsplitHead(Join(s[0], s[1]), JoinSplit(s[2..]));
    } else if s != [] {
      JoinSplitUnsplit(s[1..]);
      UnsplitHead(s[0], JoinSplit(s[1..]));
      UnsplitHead(s[0], s[1..]);
      assert s == [s[0]] + s[1..];
    }
  }

  lemma UnsplitHead(c: CodePoint, s: Text)
    ensures Unsplit([c] + s) <==> Unsplit(s) && (s != [] ==> !(IsHighSurrogate(c) && IsLowSurrogate(s[0])))
  {
    var all := [c] + s;
    if Unsplit(all) {
      forall k | 0 <= k < |s| - 1 ensures !(IsHighSurrogate(s[k]) && IsLowSurrogate(s[k + 1])) {
        assert all[k + 1] == s[k] && all[k + 2] == s[k + 1];
      }
      assert s != [] ==> all[0] == c && all[1] == s[0];
    }
  }

  lemma PairText(c: CodePoint, o: Options)
    requires c >= 0x10000 && o.ascii
    ensures
      var n := c - 0x10000;
      n / 1024 < 0x400 && CharText(c, o) == UnicodeText(0xD800 + n / 1024) + UnicodeText(0xDC00 + n % 1024)
  {
    hide CharText, UnicodeText;
    CharTextCases(c, o);
  }

  lemma JoinText(high: CodePoint, low: CodePoint, o: Options)
    requires IsHighSurrogate(high) && IsLowSurrogate(low) && o.ascii
    ensures CharText(Join(high, low), o) == CharText(high, o) + CharText(low, o)
  {
    hide CharText, UnicodeText;
    SurrogateText(high, o);
    SurrogateText(low, o);
    PairText(Join(high, low), o);
    TwoHalves(high - 0xD800, low - 0xDC00);
  }

  lemma TwoHalves(a: nat, b: nat)
    requires b < 1024
    ensures (a * 1024 + b) / 1024 == a && (a * 1024 + b) % 1024 == b
  {
  }

  lemma {:induction false} JoinSplitText(s: Text, o: Options)
    requires o.ascii
    ensures CharsText(JoinSplit(s), o) == CharsText(s, o)
  {
    hide CharText;
    if |s| > 1 && IsHighSurrogate(s[0]) && IsLowSurrogate(s[1]) {
      JoinSplitText(s[2..], o);
      JoinText(s[0], s[1], o);
      TwoChars(s, o);
    } else if s != [] {
      JoinSplitText(s[1..], o);
    }
  }

  lemma TwoChars(s: Text, o: Options)
    requires |s| > 1
    ensures CharsText(s, o) == (CharText(s[0], o) + CharText(s[1], o)) + CharsText(s[2..], o)
  {
    assert s[1..][1..] == s[2..];
  }

  /** What the string scanner makes of what the encoders write. It is the string again, but
      for characters that are split into surrogates in the ASCII form. */
  lemma StringRoundTrip(s: Text, o: Options, strict: bool)
    ensures
      var back := if o.ascii then JoinSplit(s) else s;
      ScanString(EncodeString(s, o), 1, 0, strict, []) == Ok(back, |EncodeString(s, o)|) && (back == s <==> StringKept(s, o))
  {
    hide CharsText, At, ScanString, UnitsText, UnitsFor, Chars, UnitsOk, JoinSplit, Unsplit;
    var back := if o.ascii then JoinSplit(s) else s;
    JoinSplitUnsplit(s);
    if o.ascii {
      JoinSplitText(s, o);
    }
    UnitsForOk(back, o, strict);
    AtAll(EncodeString(s, o));
    StringParses(UnitsFor(back, o), EncodeString(s, o), 0, strict);
  }

  // ---- Values -----------------------------------------------------------------------------

  // What the round trip is promised for: strings that are kept, dicts with distinct keys,
  // floats spelled as numbers with a fraction or an exponent.
  predicate Encodable(v: Json, o: Options)
    decreases v, 0
  {
    match v
    case Float(x) => NumberOk(x) && Number(x, 0).value.value == v
    case Str(s) => StringKept(s, o)
    case List(items) => forall k :: 0 <= k < |items| ==> Encodable(items[k], o)
    case Dict(pairs) => DistinctKeys(pairs) && forall k :: 0 <= k < |pairs| ==> PairEncodable(pairs[k], o)
    case _ => true
  }

  predicate PairEncodable(pair: (Text, Json), o: Options)
    decreases pair, 1
  {
    StringKept(pair.0, o) && Encodable(pair.1, o)
  }

  function Repeat(t: Text, n: nat): (r: Text)
    ensures IsBlank(t) ==> IsBlank(r)
  {
    if n == 0 then [] else t + Repeat(t, n - 1)
  }

  /** The line break and indentation in front of what stands at a level. */
  function Indentation(o: Options, level: nat): (r: Text)
    ensures OptionsOk(o) ==> IsBlank(r)
  {
    match o.indent
    case None => []
    case Some(indent) => [NEWLINE] + Repeat(indent, level)
  }

  // Everything but lists and dicts.
  function EncodeScalar(v: Json, o: Options): Text {
    match v
    case Int(n) => IntText(n)
    case Float(x) => x
    case Str(s) => EncodeString(s, o)
    case _ => WordText(v)
  }

  function Encode(v: Json, o: Options, level: nat): Text
    decreases v, 0
  {
    match v
    case List(items) =>
      if items == [] then [OPEN_BRACKET, CLOSE_BRACKET]
      else
        [OPEN_BRACKET] + Indentation(o, level + 1) + EncodeItems(items, o, level + 1) +
        Indentation(o, level) + [CLOSE_BRACKET]
    case Dict(pairs) =>
      if pairs == [] then [OPEN_BRACE, CLOSE_BRACE]
      else
        [OPEN_BRACE] + Indentation(o, level + 1) + EncodePairs(pairs, o, level + 1) +
        Indentation(o, level) + [CLOSE_BRACE]
    case _ => EncodeScalar(v, o)
  }

  function ItemBreak(o: Options, level: nat): Text {
    SeparatorText(o.itemSeparator, COMMA) + Indentation(o, level)
  }

  function EncodeItems(items: seq<Json>, o: Options, level: nat): Text
    requires items != []
    decreases items, 1
  {
    if |items| == 1 then Encode(items[0], o, level)
    else Encode(items[0], o, level) + ItemBreak(o, level) + EncodeItems(items[1..], o, level)
  }

  function EncodePair(pair: (Text, Json), o: Options, level: nat): Text
    decreases pair, 1
  {
    EncodeString(pair.0, o) + SeparatorText(o.keySeparator, COLON) + Encode(pair.1, o, level)
  }

  function EncodePairs(pairs: seq<(Text, Json)>, o: Options, level: nat): Text
    requires pairs != []
    decreases pairs, 2
  {
    if |pairs| == 1 then EncodePair(pairs[0], o, level)
    else EncodePair(pairs[0], o, level) + ItemBreak(o, level) + EncodePairs(pairs[1..], o, level)
  }

  // ---- The layout of what the encoder writes -------------------------------------------------

  function LayoutFor(v: Json, o: Options, level: nat): Layout
    decreases v, 0
  {
    match v
    case Int(n) => LNumber(IntText(n))
    case Float(x) => LNumber(x)
    case Str(s) => LStr(UnitsFor(s, o))
    case List(items) =>
      LList([], ItemsFor(items, o, level + 1, Indentation(o, level + 1), Indentation(o, level)))
    case Dict(pairs) =>
      LDict([], MembersFor(pairs, o, level + 1, Indentation(o, level + 1), Indentation(o, level)))
    case _ => LWord(v)
  }

  // `before` stands in front of the first item, `last` behind the last one.
  function ItemsFor(items: seq<Json>, o: Options, level: nat, before: Text, last: Text): (r: seq<Item>)
    ensures |r| == |items|
    decreases items, 1
  {
    if items == [] then []
    else
      [Item(before, LayoutFor(items[0], o, level), if |items| == 1 then last else o.itemSeparator.before)] +
      ItemsFor(items[1..], o, level, o.itemSeparator.after + Indentation(o, level), last)
  }

  function MemberFor(pair: (Text, Json), o: Options, level: nat, before: Text, after: Text): Member
    decreases pair, 1
  {
    Member(before, UnitsFor(pair.0, o), o.keySeparator.before,
           Item(o.keySeparator.after, LayoutFor(pair.1, o, level), after))
  }

  function MembersFor(pairs: seq<(Text, Json)>, o: Options, level: nat, before: Text, last: Text): (r: seq<Member>)
    ensures |r| == |pairs|
    decreases pairs, 2
  {
    if pairs == [] then []
    else
      [MemberFor(pairs[0], o, level, before, if |pairs| == 1 then last else o.itemSeparator.before)] +
      MembersFor(pairs[1..], o, level, o.itemSeparator.after + Indentation(o, level), last)
  }

  // str(n) is a JSON number.
  lemma IntNumberOk(n: int)
    ensures NumberOk(IntText(n)) && Number(IntText(n), 0).value.value == Int(n)
  {
    var x := IntText(n);
    var d := Decimal(if n < 0 then -n else n);
    var j := if n < 0 then 1 else 0;
    assert d == x[j..] && x[j] == d[0] && IsDigit(d[0]);
    forall k | j <= k < |x| ensures IsDigit(x[k]) {
      assert x[k] == d[k - j];
    }
    AllDigitsEnd(x, j);
    assert IntegerEnd(x, 0) == Some(|x|);
    assert x[0..|x|] == x;
    NatOfDecimal(if n < 0 then -n else n);
  }
}
