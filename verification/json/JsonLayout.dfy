// Ways to write a value down: any whitespace between the tokens, any spelling of the
// characters in a string. All of them decode to the value.
module JsonLayout {
  import opened JsonText
  import opened JsonParse

  // A character of a string and how it is spelled.
  datatype Unit = Unit(c: CodePoint, text: Text)

  datatype Layout =
    | LWord(word: Json)
    | LNumber(lexeme: Text)
    | LStr(units: seq<Unit>)
    | LList(blank: Text, items: seq<Item>)
    | LDict(blank: Text, members: seq<Member>)

  datatype Item = Item(before: Text, layout: Layout, after: Text)
  datatype Member = Member(before: Text, name: seq<Unit>, beforeColon: Text, value: Item)

  // ---- What is written --------------------------------------------------------------------

  function WordText(v: Json): Text {
    match v
    case Null => NULL_WORD
    case Bool(b) => if b then TRUE_WORD else FALSE_WORD
    case NaN => NAN_WORD
    case Infinity(negative) => if negative then [MINUS] + INFINITY_WORD else INFINITY_WORD
    case _ => []
  }

  function UnitsText(us: seq<Unit>): Text {
    if us == [] then [] else us[0].text + UnitsText(us[1..])
  }

  function StringText(us: seq<Unit>): Text {
    [QUOTE] + UnitsText(us) + [QUOTE]
  }

  function TextOf(l: Layout): Text
    decreases l, 0
  {
    match l
    case LWord(v) => WordText(v)
    case LNumber(lexeme) => lexeme
    case LStr(us) => StringText(us)
    case LList(blank, items) =>
      [OPEN_BRACKET] + (if items == [] then blank else ItemsText(items)) + [CLOSE_BRACKET]
    case LDict(blank, members) =>
      [OPEN_BRACE] + (if members == [] then blank else MembersText(members)) + [CLOSE_BRACE]
  }

  function ItemText(item: Item): Text
    decreases item, 0
  {
    item.before + TextOf(item.layout) + item.after
  }

  function ItemsText(items: seq<Item>): Text
    requires items != []
    decreases items, 1
  {
    if |items| == 1 then ItemText(items[0])
    else ItemText(items[0]) + [COMMA] + ItemsText(items[1..])
  }

  function MemberText(m: Member): Text
    decreases m, 0
  {
    m.before + StringText(m.name) + m.beforeColon + [COLON] + ItemText(m.value)
  }

  function MembersText(members: seq<Member>): Text
    requires members != []
    decreases members, 1
  {
    if |members| == 1 then MemberText(members[0])
    else MemberText(members[0]) + [COMMA] + MembersText(members[1..])
  }

  // ---- What is meant ----------------------------------------------------------------------

  function Chars(us: seq<Unit>): Text {
    if us == [] then [] else [us[0].c] + Chars(us[1..])
  }

  function ValueOf(l: Layout): Json
    decreases l, 0
  {
    match l
    case LWord(v) => v
    case LNumber(lexeme) => if NumberOk(lexeme) then Number(lexeme, 0).value.value else Null
    case LStr(us) => Str(Chars(us))
    case LList(_, items) => List(ValuesOf(items))
    case LDict(_, members) => Dict(DictOf(PairsOf(members)))
  }

  function ValuesOf(items: seq<Item>): seq<Json>
    decreases items, 1
  {
    if items == [] then [] else [ValueOf(items[0].layout)] + ValuesOf(items[1..])
  }

  function PairsOf(members: seq<Member>): seq<(Text, Json)>
    decreases members, 1
  {
    if members == [] then []
    else [(Chars(members[0].name), ValueOf(members[0].value.layout))] + PairsOf(members[1..])
  }

  // ---- When it is well written -------------------------------------------------------------

  predicate PairOk(c: CodePoint, text: Text) {
    |text| == 12 && text[0] == BACKSLASH && text[1] == SMALL_U && text[6] == BACKSLASH && text[7] == SMALL_U &&
    var high, low := Hex4Value(text[2..6]), Hex4Value(text[8..12]);
    high.Some? && low.Some? && IsHighSurrogate(high.value) && IsLowSurrogate(low.value) &&
    c == Join(high.value, low.value)
  }

  predicate HexOk(c: CodePoint, text: Text) {
    |text| == 6 && text[0] == BACKSLASH && text[1] == SMALL_U && Hex4Value(text[2..6]) == Some(c)
  }

  // Control characters stand for themselves only where it is not strict.
  predicate UnitOk(u: Unit, strict: bool) {
    || (u.text == [u.c] && u.c != QUOTE && u.c != BACKSLASH && (strict ==> u.c >= 0x20))
    || (|u.text| == 2 && u.text[0] == BACKSLASH && Unescaped(u.text[1]) == Some(u.c))
    || HexOk(u.c, u.text)
    || PairOk(u.c, u.text)
  }

  // The "\u" escape of a high surrogate alone, and that of a low one: one behind the other they
  // would be the escape of a pair.
  predicate HexHigh(u: Unit) {
    HexOk(u.c, u.text) && IsHighSurrogate(u.c)
  }

  predicate HexLow(u: Unit) {
    HexOk(u.c, u.text) && IsLowSurrogate(u.c)
  }

  predicate UnitsOk(us: seq<Unit>, strict: bool) {
    (forall u :: u in us ==> UnitOk(u, strict)) &&
    forall k :: 0 <= k < |us| - 1 ==> !(HexHigh(us[k]) && HexLow(us[k + 1]))
  }

  predicate NumberOk(lexeme: Text) {
    Number(lexeme, 0).Some? && Number(lexeme, 0).value.end == |lexeme|
  }

  predicate LayoutOk(l: Layout, strict: bool)
    decreases l, 0
  {
    match l
    case LWord(v) => v.Null? || v.Bool? || v.NaN? || v.Infinity?
    case LNumber(lexeme) => NumberOk(lexeme)
    case LStr(us) => UnitsOk(us, strict)
    case LList(blank, items) => IsBlank(blank) && forall item :: item in items ==> ItemOk(item, strict)
    case LDict(blank, members) => IsBlank(blank) && forall m :: m in members ==> MemberOk(m, strict)
  }

  predicate ItemOk(item: Item, strict: bool)
    decreases item, 1
  {
    IsBlank(item.before) && LayoutOk(item.layout, strict) && IsBlank(item.after)
  }

  predicate MemberOk(m: Member, strict: bool)
    decreases m, 2
  {
    IsBlank(m.before) && UnitsOk(m.name, strict) && IsBlank(m.beforeColon) && ItemOk(m.value, strict)
  }

  // ---- Strings ----------------------------------------------------------------------------

  lemma HexThere(t: Text, i: nat, text: Text, k: nat)
    requires At(t, i, text) && k + 4 <= |text|
    ensures HexAt(t, i + k) == Hex4Value(text[k..k + 4])
  {
    assert text == text[..k] + (text[k..k + 4] + text[k + 4..]);
    AtConcat(t, i, text[..k], text[k..k + 4] + text[k + 4..]);
    AtConcat(t, i + k, text[k..k + 4], text[k + 4..]);
  }

  // No low surrogate is escaped at j.
  predicate NotLowAt(t: Text, j: nat) {
    CharAt(t, j, BACKSLASH) && CharAt(t, j + 1, SMALL_U) ==> HexAt(t, j + 2).Some? && !IsLowSurrogate(HexAt(t, j + 2).value)
  }

  lemma EscapeThere(t: Text, i: nat, u: Unit)
    requires At(t, i, u.text) && (HexOk(u.c, u.text) || PairOk(u.c, u.text)) && (HexHigh(u) ==> NotLowAt(t, i + |u.text|))
    ensures t[i] == BACKSLASH && t[i + 1] == SMALL_U && UnicodeEscape(t, i + 2) == Ok(u.c, i + |u.text|)
  {
    hide At, Hex4Value;
    AtIndex(t, i, u.text, 0);
    AtIndex(t, i, u.text, 1);
    HexThere(t, i, u.text, 2);
    if PairOk(u.c, u.text) {
      AtIndex(t, i, u.text, 6);
      AtIndex(t, i, u.text, 7);
      HexThere(t, i, u.text, 8);
      AtIndex(t, i, u.text, 9);
      NoX(u.text[8..12]);
      AtBounds(t, i, u.text);
    }
  }

  lemma UnitNotLow(t: Text, j: nat, u: Unit, strict: bool)
    requires UnitOk(u, strict) && At(t, j, u.text) && !HexLow(u)
    ensures NotLowAt(t, j)
  {
    hide At, Hex4Value;
    AtIndex(t, j, u.text, 0);
    if HexOk(u.c, u.text) || PairOk(u.c, u.text) {
      HexThere(t, j, u.text, 2);
    } else if |u.text| == 2 {
      AtIndex(t, j, u.text, 1);
    }
  }

  // What follows the escape of a high surrogate alone.
  lemma NextNotLow(t: Text, j: nat, us: seq<Unit>, strict: bool)
    requires UnitsOk(us, strict) && At(t, j, UnitsText(us) + [QUOTE]) && (us != [] ==> !HexLow(us[0]))
    ensures NotLowAt(t, j)
  {
    hide At, UnitsText, UnitOk, HexHigh, HexLow;
    UnitsHead(us);
    if us == [] {
      AtIndex(t, j, UnitsText(us) + [QUOTE], 0);
    } else {
      hide NotLowAt;
      AtConcat(t, j, us[0].text, UnitsText(us[1..]) + [QUOTE]);
      UnitNotLow(t, j, us[0], strict);
    }
  }

  lemma UnitsHead(us: seq<Unit>)
    ensures us == [] ==> UnitsText(us) == [] && Chars(us) == []
    ensures us != [] ==> UnitsText(us) + [QUOTE] == us[0].text + (UnitsText(us[1..]) + [QUOTE])
    ensures us != [] ==> |UnitsText(us)| == |us[0].text| + |UnitsText(us[1..])| && Chars(us) == [us[0].c] + Chars(us[1..])
  {
  }

  lemma NoX(digits: Text)
    requires |digits| == 4 && Hex4Value(digits).Some?
    ensures digits[1] != 0x78 && digits[1] != 0x58
  {
  }

  // One more unit in front.
  lemma FirstUnit(u: Unit, rest: seq<Unit>, strict: bool)
    requires UnitOk(u, strict) && UnitsOk(rest, strict) && (rest != [] ==> !(HexHigh(u) && HexLow(rest[0])))
    ensures UnitsOk([u] + rest, strict)
    ensures u.text + (UnitsText(rest) + [QUOTE]) == UnitsText([u] + rest) + [QUOTE] && Chars([u] + rest) == [u.c] + Chars(rest)
  {
    hide UnitOk, HexHigh, HexLow;
    assert ([u] + rest)[1..] == rest;
  }

  lemma ScanUnit(t: Text, i: nat, u: Unit, begin: nat, strict: bool, acc: Text)
    requires UnitOk(u, strict) && At(t, i, u.text) && (HexHigh(u) ==> NotLowAt(t, i + |u.text|))
    ensures ScanString(t, i, begin, strict, acc) == ScanString(t, i + |u.text|, begin, strict, acc + [u.c])
  {
    hide At, UnicodeEscape;
    AtBounds(t, i, u.text);
    AtIndex(t, i, u.text, 0);
    if HexOk(u.c, u.text) || PairOk(u.c, u.text) {
      EscapeThere(t, i, u);
    } else if |u.text| == 2 {
      AtIndex(t, i, u.text, 1);
    }
  }

  /** Any spelling of a string is read back as its characters. */
  lemma {:induction false} ScanUnits(t: Text, i: nat, us: seq<Unit>, begin: nat, strict: bool, acc: Text)
    requires UnitsOk(us, strict) && At(t, i, UnitsText(us) + [QUOTE])
    ensures ScanString(t, i, begin, strict, acc) == Ok(acc + Chars(us), i + |UnitsText(us)| + 1)
    decreases |us|
  {
    hide At, ScanString, UnitsText, Chars, UnitOk, HexHigh, HexLow, NotLowAt;
    UnitsHead(us);
    if us == [] {
      AtBounds(t, i, UnitsText(us) + [QUOTE]);
      AtIndex(t, i, UnitsText(us) + [QUOTE], 0);
      ScanQuote(t, i, begin, strict, acc);
      EmptyRight(acc);
    } else {
      var rest := UnitsText(us[1..]) + [QUOTE];
      AtConcat(t, i, us[0].text, rest);
      if HexHigh(us[0]) {
        NextNotLow(t, i + |us[0].text|, us[1..], strict);
      }
      ScanUnit(t, i, us[0], begin, strict, acc);
      ScanUnits(t, i + |us[0].text|, us[1..], begin, strict, acc + [us[0].c]);
      More(acc, us[0].c, Chars(us[1..]));
    }
  }

  lemma ScanQuote(t: Text, i: nat, begin: nat, strict: bool, acc: Text)
    requires CharAt(t, i, QUOTE)
    ensures ScanString(t, i, begin, strict, acc) == Ok(acc, i + 1)
  {
  }

  lemma EmptyRight<T>(a: seq<T>)
    ensures a + [] == a
  {
  }

  // ---- Numbers ----------------------------------------------------------------------------

  // What cannot continue a number.
  predicate NumberStops(t: Text, j: nat) {
    j < |t| ==> !IsDigit(t[j]) && t[j] != DOT && !IsExponent(t[j])
  }

  lemma {:induction false} DigitsEndThere(t: Text, i: nat, x: Text, k: nat)
    requires At(t, i, x) && k <= |x|
    requires NumberStops(t, i + |x|)
    ensures DigitsEnd(t, i + k) == i + DigitsEnd(x, k)
    decreases |x| - k
  {
    if k < |x| {
      AtIndex(t, i, x, k);
      if IsDigit(x[k]) {
        DigitsEndThere(t, i, x, k + 1);
      }
    }
  }

  lemma IntegerEndThere(t: Text, i: nat, x: Text)
    requires At(t, i, x) && NumberStops(t, i + |x|) && IntegerEnd(x, 0).Some?
    ensures IntegerEnd(t, i) == Some(i + IntegerEnd(x, 0).value)
  {
    var j := if CharAt(x, 0, MINUS) then 1 else 0;
    AtIndex(t, i, x, 0);
    AtIndex(t, i, x, j);
    DigitsEndThere(t, i, x, j);
  }

  lemma FractionEndThere(t: Text, i: nat, x: Text, k: nat)
    requires At(t, i, x) && NumberStops(t, i + |x|) && k <= |x|
    ensures FractionEnd(t, i + k) == i + FractionEnd(x, k)
  {
    if k < |x| {
      AtIndex(t, i, x, k);
      DigitsEndThere(t, i, x, k + 1);
    }
  }

  lemma ExponentEndThere(t: Text, i: nat, x: Text, k: nat)
    requires At(t, i, x) && NumberStops(t, i + |x|) && k <= |x| && ExponentEnd(x, k) == |x|
    ensures ExponentEnd(t, i + k) == i + |x|
  {
    if k < |x| {
      AtIndex(t, i, x, k);
      assert k + 1 < |x|;
      AtIndex(t, i, x, k + 1);
      var j := if CharAt(x, k + 1, MINUS) || CharAt(x, k + 1, PLUS) then k + 2 else k + 1;
      DigitsEndThere(t, i, x, j);
    }
  }

  /** A number is read to its end, wherever it stands. */
  lemma NumberThere(t: Text, i: nat, x: Text)
    requires At(t, i, x) && NumberStops(t, i + |x|) && NumberOk(x)
    ensures Number(t, i) == Some(Ok(Number(x, 0).value.value, i + |x|))
  {
    hide IntegerEnd, FractionEnd, ExponentEnd, IntOf;
    var e := IntegerEnd(x, 0).value;
    var f := FractionEnd(x, e);
    assert ExponentEnd(x, f) == |x|;
    IntegerEndThere(t, i, x);
    FractionEndThere(t, i, x, e);
    ExponentEndThere(t, i, x, f);
    assert t[i..i + |x|] == x && x[0..|x|] == x;
  }

  // ---- Values -----------------------------------------------------------------------------

  lemma {:induction false} SkipBlank(t: Text, i: nat, w: Text)
    requires At(t, i, w) && IsBlank(w) && i + |w| < |t| && !IsWhitespace(t[i + |w|])
    ensures Skip(t, i) == i + |w|
    decreases |w|
  {
    if w != [] {
      AtIndex(t, i, w, 0);
      assert w == [w[0]] + w[1..];
      AtConcat(t, i, [w[0]], w[1..]);
      SkipBlank(t, i + 1, w[1..]);
    }
  }

  lemma {:induction false} SkipBlankToEnd(t: Text, i: nat)
    requires i <= |t| && IsBlank(t[i..])
    ensures Skip(t, i) == |t|
    decreases |t| - i
  {
    if i < |t| {
      assert t[i..][0] == t[i];
      assert forall c :: c in t[i + 1..] ==> c in t[i..];
      SkipBlankToEnd(t, i + 1);
    }
  }

  // A value starts with a character that is no whitespace and closes nothing.
  predicate StartsValue(c: CodePoint) {
    !IsWhitespace(c) && c != CLOSE_BRACKET && c != CLOSE_BRACE && c != COMMA
  }

  lemma TextStarts(l: Layout, strict: bool)
    requires LayoutOk(l, strict)
    ensures TextOf(l) != [] && StartsValue(TextOf(l)[0])
  {
  }

  lemma WordParses(v: Json, t: Text, i: nat, strict: bool)
    requires LayoutOk(LWord(v), strict) && At(t, i, WordText(v))
    ensures ParseValue(t, i, strict) == Ok(v, i + |WordText(v)|)
  {
    AtIndex(t, i, WordText(v), 0);
    if v.Infinity? || v.NaN? {
      WordsDiffer(t, i);
      if v == Infinity(true) {
        AtIndex(t, i, WordText(v), 1);
      }
    }
  }

  lemma AtFirst(t: Text, i: nat, x: Text)
    requires x != []
    ensures At(t, i, x) ==> i < |t| && t[i] == x[0]
  {
    if At(t, i, x) {
      AtIndex(t, i, x, 0);
    }
  }

  lemma WordsDiffer(t: Text, i: nat)
    requires i < |t| && t[i] != NULL_WORD[0] && t[i] != TRUE_WORD[0] && t[i] != FALSE_WORD[0]
    ensures !At(t, i, NULL_WORD) && !At(t, i, TRUE_WORD) && !At(t, i, FALSE_WORD)
  {
    AtFirst(t, i, NULL_WORD);
    AtFirst(t, i, TRUE_WORD);
    AtFirst(t, i, FALSE_WORD);
  }

  lemma NumberParses(x: Text, t: Text, i: nat, strict: bool)
    requires NumberOk(x) && At(t, i, x) && NumberStops(t, i + |x|)
    ensures ParseValue(t, i, strict) == Ok(ValueOf(LNumber(x)), i + |x|)
  {
    NumberThere(t, i, x);
    AtIndex(t, i, x, 0);
    assert IsDigit(x[0]) || x[0] == MINUS;
    WordsDiffer(t, i);
  }

  lemma StringParses(us: seq<Unit>, t: Text, i: nat, strict: bool)
    requires UnitsOk(us, strict) && At(t, i, StringText(us))
    ensures ScanString(t, i + 1, i, strict, []) == Ok(Chars(us), i + |StringText(us)|)
    ensures t[i] == QUOTE
  {
    hide At, ScanString, UnitsText, Chars, UnitsOk;
    assert StringText(us) == [QUOTE] + (UnitsText(us) + [QUOTE]);
    AtConcat(t, i, [QUOTE], UnitsText(us) + [QUOTE]);
    AtIndex(t, i, [QUOTE], 0);
    ScanUnits(t, i + 1, us, i, strict, []);
    EmptyLeft(Chars(us));
  }

  // What may follow a value inside a list or dict.
  lemma AfterValue(t: Text, j: nat, after: Text, next: CodePoint)
    requires At(t, j, after + [next]) && IsBlank(after) && (next == COMMA || next == CLOSE_BRACKET || next == CLOSE_BRACE)
    ensures NumberStops(t, j)
    ensures Skip(t, j) == j + |after| && t[j + |after|] == next && j + |after| < |t|
  {
    AtIndex(t, j, after + [next], 0);
    AtIndex(t, j, after + [next], |after|);
    AtConcat(t, j, after, [next]);
    SkipBlank(t, j, after);
  }

  /** However a value is laid out, the decoder reads exactly that value and stops right
      behind it. */
  lemma {:induction false} LayoutParses(l: Layout, t: Text, i: nat, strict: bool)
    requires LayoutOk(l, strict) && At(t, i, TextOf(l))
    requires l.LNumber? ==> NumberStops(t, i + |TextOf(l)|)
    ensures ParseValue(t, i, strict) == Ok(ValueOf(l), i + |TextOf(l)|)
    decreases l, 0
  {
    match l
    case LWord(v) =>
      WordParses(v, t, i, strict);
    case LNumber(x) =>
      NumberParses(x, t, i, strict);
    case LStr(us) =>
      StringParses(us, t, i, strict);
    case LList(blank, items) =>
      ListParses(blank, items, t, i, strict);
    case LDict(blank, members) =>
      DictParses(blank, members, t, i, strict);
  }

  lemma {:induction false} ListParses(blank: Text, items: seq<Item>, t: Text, i: nat, strict: bool)
    requires LayoutOk(LList(blank, items), strict) && At(t, i, TextOf(LList(blank, items)))
    ensures ParseValue(t, i, strict) == Ok(List(ValuesOf(items)), i + |TextOf(LList(blank, items))|)
    decreases items, 4
  {
    hide ParseElements, At, Skip, ItemsText, ItemOk;
    var inner := if items == [] then blank else ItemsText(items);
    Group([OPEN_BRACKET], inner, [CLOSE_BRACKET]);
    AtConcat(t, i, [OPEN_BRACKET], inner + [CLOSE_BRACKET]);
    AtIndex(t, i, [OPEN_BRACKET], 0);
    assert ParseValue(t, i, strict) == ParseArray(t, i + 1, strict);
    if items == [] {
      AfterValue(t, i + 1, blank, CLOSE_BRACKET);
    } else {
      ItemsParse(items, t, i + 1, strict, []);
      EmptyLeft(ValuesOf(items));
    }
  }

  lemma EmptyLeft<T>(a: seq<T>)
    ensures [] + a == a
  {
  }

  lemma Group(a: Text, b: Text, c: Text)
    ensures a + b + c == a + (b + c)
  {
  }

  lemma Regroup(a: Text, b: Text, c: Text, d: Text)
    ensures a + b + c + d == a + (b + (c + d))
  {
  }

  // One value with the whitespace around it, up to the character that ends it.
  lemma {:induction false} ItemParses(item: Item, t: Text, i: nat, strict: bool, next: CodePoint)
    requires ItemOk(item, strict) && At(t, i, ItemText(item) + [next])
    requires next == COMMA || next == CLOSE_BRACKET || next == CLOSE_BRACE
    ensures Skip(t, i) < |t| && StartsValue(t[Skip(t, i)])
    ensures
      var r := ParseValue(t, Skip(t, i), strict);
      r.Ok? && r.value == ValueOf(item.layout) &&
      Skip(t, r.end) == i + |ItemText(item)| && CharAt(t, i + |ItemText(item)|, next)
    decreases item, 0
  {
    hide ParseValue, At, Skip, TextOf, LayoutOk, ValueOf, IsBlank;
    var x := TextOf(item.layout);
    var p := i + |item.before|;
    Regroup(item.before, x, item.after, [next]);
    AtConcat(t, i, item.before, x + (item.after + [next]));
    AtConcat(t, p, x, item.after + [next]);
    TextStarts(item.layout, strict);
    AtIndex(t, p, x, 0);
    SkipBlank(t, i, item.before);
    AfterValue(t, p + |x|, item.after, next);
    LayoutParses(item.layout, t, p, strict);
  }

  lemma ElementStep(t: Text, e: nat, strict: bool, values: seq<Json>, v: Json, end: nat, j: nat)
    requires e <= |t| && ParseValue(t, e, strict) == Ok(v, end) && Skip(t, end) == j
    ensures CharAt(t, j, CLOSE_BRACKET) ==> ParseElements(t, e, strict, values) == Ok(List(values + [v]), j + 1)
    ensures CharAt(t, j, COMMA) ==>
      ParseElements(t, e, strict, values) == ParseElements(t, Skip(t, j + 1), strict, values + [v])
  {
    hide ParseValue, Skip;
  }

  lemma {:induction false} ItemsParse(items: seq<Item>, t: Text, i: nat, strict: bool, values: seq<Json>)
    requires items != [] && (forall item :: item in items ==> ItemOk(item, strict))
    requires At(t, i, ItemsText(items) + [CLOSE_BRACKET])
    ensures Skip(t, i) < |t| && StartsValue(t[Skip(t, i)])
    ensures ParseElements(t, Skip(t, i), strict, values)
         == Ok(List(values + ValuesOf(items)), i + |ItemsText(items)| + 1)
    decreases items, 3
  {
    hide ParseValue, ParseElements, Skip, At, ItemText, ItemsText, ValueOf, ValuesOf, ItemOk, StartsValue;
    var v := ValueOf(items[0].layout);
    var next := if |items| == 1 then CLOSE_BRACKET else COMMA;
    var j := i + |ItemText(items[0])|;
    ItemsHead(items);
    More(values, v, ValuesOf(items[1..]));
    if |items| > 1 {
      var rest := ItemsText(items[1..]) + [CLOSE_BRACKET];
      AtConcat(t, i, ItemText(items[0]) + [COMMA], rest);
      ItemsParse(items[1..], t, j + 1, strict, values + [v]);
    }
    ItemParses(items[0], t, i, strict, next);
    ElementStep(t, Skip(t, i), strict, values, v, ParseValue(t, Skip(t, i), strict).end, j);
  }

  lemma ItemsHead(items: seq<Item>)
    requires items != []
    ensures ValuesOf(items) == [ValueOf(items[0].layout)] + ValuesOf(items[1..])
    ensures |items| == 1 ==> ItemsText(items) == ItemText(items[0]) && ValuesOf(items[1..]) == []
    ensures |items| > 1 ==>
      ItemsText(items) + [CLOSE_BRACKET] == (ItemText(items[0]) + [COMMA]) + (ItemsText(items[1..]) + [CLOSE_BRACKET])
  {
    hide ItemText, ValueOf;
  }

  lemma More<T>(a: seq<T>, e: T, b: seq<T>)
    ensures a + [e] + b == a + ([e] + b) && (b == [] ==> a + [e] == a + ([e] + b))
  {
  }

  lemma {:induction false} DictParses(blank: Text, members: seq<Member>, t: Text, i: nat, strict: bool)
    requires LayoutOk(LDict(blank, members), strict) && At(t, i, TextOf(LDict(blank, members)))
    ensures ParseValue(t, i, strict)
         == Ok(Dict(DictOf(PairsOf(members))), i + |TextOf(LDict(blank, members))|)
    decreases members, 4
  {
    hide ParseMembers, DictOf, At, Skip, MembersText, MemberOk;
    var inner := if members == [] then blank else MembersText(members);
    Group([OPEN_BRACE], inner, [CLOSE_BRACE]);
    AtConcat(t, i, [OPEN_BRACE], inner + [CLOSE_BRACE]);
    AtIndex(t, i, [OPEN_BRACE], 0);
    assert ParseValue(t, i, strict) == ParseObject(t, i + 1, strict);
    if members == [] {
      AfterValue(t, i + 1, blank, CLOSE_BRACE);
      EmptyDict();
    } else {
      MembersParse(members, t, i + 1, strict, []);
      EmptyLeft(PairsOf(members));
    }
  }

  lemma EmptyDict()
    ensures DictOf([]) == []
  {
  }

  // The name of a member, read from behind its opening quote.
  lemma NameStep(t: Text, q: nat, strict: bool, key: Text, end: nat, colon: nat)
    requires q < |t| && ScanString(t, q + 1, q, strict, []) == Ok(key, end)
    requires Skip(t, end) == colon && CharAt(t, colon, COLON)
    ensures ParseName(t, q + 1, strict) == Ok(key, Skip(t, colon + 1))
  {
    hide ScanString, Skip;
  }

  // Where the parts of a member stand.
  ghost predicate NameAt(m: Member, t: Text, i: nat) {
    At(t, i, m.before) && At(t, i + |m.before|, StringText(m.name)) &&
    At(t, i + |m.before| + |StringText(m.name)|, m.beforeColon) &&
    At(t, ColonOf(m, i), [COLON])
  }

  function ColonOf(m: Member, i: nat): nat {
    i + |m.before| + |StringText(m.name)| + |m.beforeColon|
  }

  lemma MemberSplits(m: Member, t: Text, i: nat, tail: Text)
    requires At(t, i, m.before + StringText(m.name) + m.beforeColon + ([COLON] + tail))
    ensures NameAt(m, t, i) && At(t, ColonOf(m, i) + 1, tail)
  {
    hide At, StringText;
    var name, rest := StringText(m.name), [COLON] + tail;
    Regroup(m.before, name, m.beforeColon, rest);
    AtConcat(t, i, m.before, name + (m.beforeColon + rest));
    AtConcat(t, i + |m.before|, name, m.beforeColon + rest);
    AtConcat(t, i + |m.before| + |name|, m.beforeColon, rest);
    AtConcat(t, ColonOf(m, i), [COLON], tail);
  }

  lemma NameParses(m: Member, t: Text, i: nat, strict: bool)
    requires MemberOk(m, strict) && NameAt(m, t, i)
    ensures Skip(t, i) < |t| && t[Skip(t, i)] == QUOTE
    ensures ParseName(t, Skip(t, i) + 1, strict) == Ok(Chars(m.name), Skip(t, ColonOf(m, i) + 1))
  {
    hide ScanString, ParseName, At, Skip, Chars, UnitsOk, ItemOk, IsBlank, StringText;
    var p := i + |m.before|;
    var end := p + |StringText(m.name)|;
    StringParses(m.name, t, p, strict);
    AtBounds(t, ColonOf(m, i), [COLON]);
    AtIndex(t, ColonOf(m, i), [COLON], 0);
    SkipBlank(t, i, m.before);
    SkipBlank(t, end, m.beforeColon);
    NameStep(t, p, strict, Chars(m.name), end, ColonOf(m, i));
  }

  lemma AtAll(t: Text)
    ensures At(t, 0, t)
  {
  }

  lemma AtBounds(t: Text, i: nat, x: Text)
    requires At(t, i, x)
    ensures i + |x| <= |t|
  {
  }

  lemma MemberStep(t: Text, i: nat, strict: bool, pairs: seq<(Text, Json)>, key: Text, start: nat, v: Json, end: nat, j: nat)
    requires 0 < i <= |t| && ParseName(t, i, strict) == Ok(key, start)
    requires ParseValue(t, start, strict) == Ok(v, end) && Skip(t, end) == j
    ensures CharAt(t, j, CLOSE_BRACE) ==>
      ParseMembers(t, i, strict, pairs) == Ok(Dict(DictOf(pairs + [(key, v)])), j + 1)
    ensures CharAt(t, j, COMMA) && CharAt(t, Skip(t, j + 1), QUOTE) ==>
      ParseMembers(t, i, strict, pairs) == ParseMembers(t, Skip(t, j + 1) + 1, strict, pairs + [(key, v)])
  {
    hide ParseValue, ParseName, Skip, DictOf;
  }

  lemma {:induction false} MembersParse(members: seq<Member>, t: Text, i: nat, strict: bool, pairs: seq<(Text, Json)>)
    requires members != [] && (forall m :: m in members ==> MemberOk(m, strict))
    requires At(t, i, MembersText(members) + [CLOSE_BRACE])
    ensures Skip(t, i) < |t| && t[Skip(t, i)] == QUOTE
    ensures ParseMembers(t, Skip(t, i) + 1, strict, pairs)
         == Ok(Dict(DictOf(pairs + PairsOf(members))), i + |MembersText(members)| + 1)
    decreases members, 3
  {
    hide ParseValue, ParseName, ParseMembers, Skip, DictOf, At, MemberText, MembersText, PairsOf, ValueOf, Chars, MemberOk, StartsValue;
    var m := members[0];
    assert MemberOk(m, strict);
    var v := ValueOf(m.value.layout);
    var pair := (Chars(m.name), v);
    var next := if |members| == 1 then CLOSE_BRACE else COMMA;
    var more := if |members| == 1 then [] else MembersText(members[1..]) + [CLOSE_BRACE];
    var j := i + |MemberText(m)|;
    MembersHead(members);
    More(pairs, pair, PairsOf(members[1..]));
    MemberParses(m, t, i, strict, next, more);
    if |members| > 1 {
      MembersParse(members[1..], t, j + 1, strict, pairs + [pair]);
    }
    var name := ParseName(t, Skip(t, i) + 1, strict);
    MemberStep(t, Skip(t, i) + 1, strict, pairs, pair.0, name.end, v, ParseValue(t, name.end, strict).end, j);
  }

  lemma MembersHead(members: seq<Member>)
    requires members != []
    ensures
      var m := members[0];
      PairsOf(members) == [(Chars(m.name), ValueOf(m.value.layout))] + PairsOf(members[1..]) &&
      (|members| == 1 ==>
        MembersText(members) + [CLOSE_BRACE] == (MemberText(m) + [CLOSE_BRACE]) + [] && PairsOf(members[1..]) == []) &&
      (|members| > 1 ==>
        MembersText(members) + [CLOSE_BRACE] == (MemberText(m) + [COMMA]) + (MembersText(members[1..]) + [CLOSE_BRACE]))
  {
    hide MemberText, ValueOf, Chars;
    EmptyRight(MemberText(members[0]) + [CLOSE_BRACE]);
  }

  // One member up to the character that ends it.
  lemma {:induction false} MemberParses(m: Member, t: Text, i: nat, strict: bool, next: CodePoint, more: Text)
    requires MemberOk(m, strict) && At(t, i, (MemberText(m) + [next]) + more) && (next == COMMA || next == CLOSE_BRACE)
    ensures Skip(t, i) < |t| && t[Skip(t, i)] == QUOTE
    ensures At(t, i + |MemberText(m)| + 1, more)
    ensures
      var name := ParseName(t, Skip(t, i) + 1, strict);
      name.Ok? && name.value == Chars(m.name) &&
      var r := ParseValue(t, name.end, strict);
      r.Ok? && r.value == ValueOf(m.value.layout) &&
      Skip(t, r.end) == i + |MemberText(m)| && CharAt(t, i + |MemberText(m)|, next)
    decreases m, 1
  {
    hide ParseValue, ParseName, Skip, At, ItemText, ValueOf, StringText, Chars, ItemOk, StartsValue;
    var tail := (ItemText(m.value) + [next]) + more;
    assert (MemberText(m) + [next]) + more == m.before + StringText(m.name) + m.beforeColon + ([COLON] + tail);
    AtConcat(t, i, MemberText(m) + [next], more);
    MemberSplits(m, t, i, tail);
    NameParses(m, t, i, strict);
    AtConcat(t, ColonOf(m, i) + 1, ItemText(m.value) + [next], more);
    ItemParses(m.value, t, ColonOf(m, i) + 1, strict, next);
  }

  lemma DropBoth(a: Text, b: Text, c: Text)
    ensures (a + b + c)[|a| + |b|..] == c
  {
  }

  lemma AfterDocument(t: Text, j: nat, after: Text)
    requires j <= |t| && t[j..] == after && IsBlank(after)
    ensures NumberStops(t, j)
  {
    if j < |t| {
      assert t[j] == after[0] && after[0] in after;
    }
  }

  /** A document with whitespace before and behind it decodes to its value. */
  lemma DocumentDecodes(before: Text, l: Layout, after: Text, strict: bool)
    requires IsBlank(before) && LayoutOk(l, strict) && IsBlank(after)
    ensures Decode(before + TextOf(l) + after, strict) == Ok(ValueOf(l), |before + TextOf(l) + after|)
  {
    hide ParseValue, Skip, At, TextOf, LayoutOk, ValueOf, IsBlank;
    var t := before + TextOf(l) + after;
    var j := |before| + |TextOf(l)|;
    Group(before, TextOf(l), after);
    AtAll(t);
    AtConcat(t, 0, before, TextOf(l) + after);
    AtConcat(t, |before|, TextOf(l), after);
    TextStarts(l, strict);
    AtIndex(t, |before|, TextOf(l), 0);
    SkipBlank(t, 0, before);
    DropBoth(before, TextOf(l), after);
    AfterDocument(t, j, after);
    LayoutParses(l, t, |before|, strict);
    SkipBlankToEnd(t, j);
  }
}
