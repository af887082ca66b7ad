// The decoder's errors are true: up to the place of an error the text can still become a document, with
// what the message asks for standing there, and in the text it does not stand there.
module JsonErrors {
  import opened JsonText
  import opened JsonParse
  import opened JsonLayout
  import opened JsonConverse

  // What the message asks for. Behind the end of a document nothing can come.
  ghost predicate Wanted(m: Message, y: Text, strict: bool) {
    match m
    case ExpectingValue => IsValue(y, strict)
    case UnterminatedString => IsString(y, strict)
    case ExpectingPropertyName => IsString(y, strict)
    case InvalidControlCharacter => y == [QUOTE]
    case InvalidEscape => |y| == 1 && Unescaped(y[0]).Some?
    case InvalidUnicodeEscape => exists c :: HexOk(c, y) && !IsLowSurrogate(c)
    case ExpectingColon => y == [COLON]
    case ExpectingCommaOrBrace => y == [COMMA] || y == [CLOSE_BRACE]
    case ExpectingCommaOrBracket => y == [COMMA] || y == [CLOSE_BRACKET]
    case ExpectingValueOrBracket => y == [CLOSE_BRACKET] || IsValue(y, strict)
    case ExtraData => y == []
  }

  ghost predicate IsValue(y: Text, strict: bool) {
    exists l :: LayoutOk(l, strict) && y == TextOf(l)
  }

  ghost predicate IsString(y: Text, strict: bool) {
    exists us :: UnitsOk(us, strict) && y == StringText(us)
  }

  // The place of the error: for a control character the index behind it is reported.
  function Place(m: Message, pos: nat): int {
    if m.InvalidControlCharacter? then pos - 1 else pos
  }

  // Errors inside of strings.
  predicate InString(m: Message) {
    m.UnterminatedString? || m.InvalidControlCharacter? || m.InvalidEscape? || m.InvalidUnicodeEscape?
  }

  /** What stands at the place of the error is not what the message asks for, and where the error is
      not inside of a string it is no whitespace. */
  ghost predicate NotThere(t: Text, m: Message, pos: nat, strict: bool) {
    0 <= Place(m, pos) <= |t| && (!InString(m) && pos < |t| ==> !IsWhitespace(t[pos])) &&
    match m
    case ExtraData => pos < |t|
    case InvalidControlCharacter => strict && pos <= |t| && t[pos - 1] < 0x20
    case UnterminatedString => CharAt(t, pos, QUOTE) && NoneAt(t, pos, m, strict)
    case InvalidEscape => 0 < pos < |t| && t[pos - 1] == BACKSLASH && t[pos] != SMALL_U && Unescaped(t[pos]).None?
    case InvalidUnicodeEscape => CharAt(t, pos, BACKSLASH) && CharAt(t, pos + 1, SMALL_U) && HexAt(t, pos + 2).None?
    case _ => NoneAt(t, pos, m, strict)
  }

  ghost predicate NoneAt(t: Text, pos: nat, m: Message, strict: bool) {
    forall y :: Wanted(m, y, strict) ==> !At(t, pos, y)
  }

  // ---- Strings ---------------------------------------------------------------------------------

  lemma EscapeErrorThere(t: Text, i: nat, begin: nat, strict: bool)
    requires CharAt(t, i, BACKSLASH) && Escape(t, i + 1, begin).Error?
    ensures
      var r := Escape(t, i + 1, begin);
      if r.message.UnterminatedString? then r.pos == begin else NotThere(t, r.message, r.pos, strict)
  {
    hide HexAt, Unescaped, Wanted, At;
  }

  // Where a string does not end, it starts at the place of the error.
  lemma {:induction false} StringErrorThere(t: Text, i: nat, begin: nat, strict: bool, acc: Text)
    requires ScanString(t, i, begin, strict, acc).Error?
    ensures
      var r := ScanString(t, i, begin, strict, acc);
      InString(r.message) && if r.message.UnterminatedString? then r.pos == begin else NotThere(t, r.message, r.pos, strict)
    decreases |t| - i
  {
    hide Escape, Wanted, At;
    if i < |t| && t[i] == BACKSLASH {
      EscapeErrorThere'(t, i, begin, strict);
      if Escape(t, i + 1, begin).Ok? {
        StringErrorThere(t, Escape(t, i + 1, begin).end, begin, strict, acc + [Escape(t, i + 1, begin).value]);
      }
    } else if i < |t| && t[i] != QUOTE && !(t[i] < 0x20 && strict) {
      StringErrorThere(t, i + 1, begin, strict, acc + [t[i]]);
    }
  }

  lemma EscapeErrorThere'(t: Text, i: nat, begin: nat, strict: bool)
    requires CharAt(t, i, BACKSLASH)
    ensures
      var r := Escape(t, i + 1, begin);
      r.Error? ==> InString(r.message) && if r.message.UnterminatedString? then r.pos == begin else NotThere(t, r.message, r.pos, strict)
  {
    if Escape(t, i + 1, begin).Error? {
      EscapeErrorThere(t, i, begin, strict);
    }
  }

  lemma QuotedErrorThere(t: Text, i: nat, strict: bool)
    requires CharAt(t, i, QUOTE) && ScanString(t, i + 1, i, strict, []).Error?
    ensures
      var r := ScanString(t, i + 1, i, strict, []);
      InString(r.message) && NotThere(t, r.message, r.pos, strict) && (r.message.UnterminatedString? ==> r.pos == i)
  {
    hide ScanString, At, StringText;
    StringErrorThere(t, i + 1, i, strict, []);
    if ScanString(t, i + 1, i, strict, []).message.UnterminatedString? {
      forall y | IsString(y, strict) ensures !At(t, i, y) {
        var us :| UnitsOk(us, strict) && y == StringText(us);
        if At(t, i, y) {
          StringParses(us, t, i, strict);
        }
      }
    }
  }

  // ---- Values ----------------------------------------------------------------------------------

  // No value stands where none is read.
  lemma NoValueAt(t: Text, i: nat, strict: bool)
    requires i <= |t| && (i < |t| ==> t[i] != QUOTE && t[i] != OPEN_BRACE && t[i] != OPEN_BRACKET)
    requires ParseValue(t, i, strict) == Error(ExpectingValue, i)
    ensures NoneAt(t, i, ExpectingValue, strict)
  {
    hide ParseValue, At;
    forall y | IsValue(y, strict) ensures !At(t, i, y) {
      var l :| LayoutOk(l, strict) && y == TextOf(l);
      if At(t, i, y) {
        ValueReads(t, i, l, strict);
      }
    }
  }

  // Where a value stands, something is read, or it is one in quotes or brackets.
  lemma ValueReads(t: Text, i: nat, l: Layout, strict: bool)
    requires LayoutOk(l, strict) && At(t, i, TextOf(l)) && i <= |t|
    ensures i < |t|
    ensures t[i] == QUOTE || t[i] == OPEN_BRACE || t[i] == OPEN_BRACKET || ParseValue(t, i, strict) != Error(ExpectingValue, i)
  {
    hide At, LayoutOk, ParseValue;
    TextStarts(l, strict);
    AtBounds(t, i, TextOf(l));
    AtIndex(t, i, TextOf(l), 0);
    match l
    case LWord(_) => LayoutParses(l, t, i, strict);
    case LNumber(x) => NumberReads(t, i, x, strict);
    case LStr(us) =>
    case LList(_, _) =>
    case LDict(_, _) =>
  }

  lemma NumberReads(t: Text, i: nat, x: Text, strict: bool)
    requires LayoutOk(LNumber(x), strict) && At(t, i, x) && i < |t| && x != [] && t[i] == x[0]
    ensures ParseValue(t, i, strict) != Error(ExpectingValue, i)
  {
    hide At, FractionEnd, ExponentEnd;
    if x[0] == MINUS {
      AtIndex(t, i, x, 1);
      AtBounds(t, i, x);
    }
    assert IntegerEnd(t, i).Some?;
    assert Number(t, i).Some?;
  }

  lemma ErrorHere(t: Text, i: nat, strict: bool)
    requires i <= |t| && (i < |t| ==> t[i] != QUOTE && t[i] != OPEN_BRACE && t[i] != OPEN_BRACKET)
    requires ParseValue(t, i, strict).Error?
    ensures ParseValue(t, i, strict) == Error(ExpectingValue, i)
  {
    hide At, IntegerEnd, FractionEnd, ExponentEnd;
  }

  lemma SignMissing(t: Text, pos: nat, m: Message, strict: bool)
    requires m.ExpectingColon? || m.ExpectingCommaOrBrace? || m.ExpectingCommaOrBracket?
    requires pos <= |t| && (pos < |t| ==> !IsWhitespace(t[pos]))
    requires forall c :: Wanted(m, [c], strict) ==> !CharAt(t, pos, c)
    ensures NotThere(t, m, pos, strict)
  {
    hide At;
    forall y | Wanted(m, y, strict) ensures !At(t, pos, y) {
      assert y == [y[0]];
      if At(t, pos, y) {
        AtIndex(t, pos, y, 0);
        AtBounds(t, pos, y);
      }
    }
  }

  lemma NameMissing(t: Text, pos: nat, strict: bool)
    requires pos <= |t| && (pos < |t| ==> !IsWhitespace(t[pos])) && !CharAt(t, pos, QUOTE)
    ensures NotThere(t, ExpectingPropertyName, pos, strict)
  {
    hide At;
    forall y | IsString(y, strict) ensures !At(t, pos, y) {
      if At(t, pos, y) {
        AtIndex(t, pos, y, 0);
        AtBounds(t, pos, y);
      }
    }
  }

  lemma TextEnds(t: Text, strict: bool)
    ensures NotThere(t, ExpectingValueOrBracket, |t|, strict)
  {
    hide At;
    forall y | Wanted(ExpectingValueOrBracket, y, strict) ensures !At(t, |t|, y) {
      if At(t, |t|, y) {
        AtBounds(t, |t|, y);
        if IsValue(y, strict) {
          var l :| LayoutOk(l, strict) && y == TextOf(l);
          TextStarts(l, strict);
        }
      }
    }
  }

  lemma SkippedTo(t: Text, i: nat)
    ensures Skip(t, i) <= |t| && (Skip(t, i) < |t| ==> !IsWhitespace(t[Skip(t, i)]))
  {
  }

  // Where a value or a name is looked for, the whitespace is behind.
  ghost predicate Behind(t: Text, i: nat) {
    i <= |t| && (i < |t| ==> !IsWhitespace(t[i]))
  }

  lemma {:induction false} ValueErrorThere(t: Text, i: nat, strict: bool)
    requires Behind(t, i) && ParseValue(t, i, strict).Error?
    ensures var r := ParseValue(t, i, strict); NotThere(t, r.message, r.pos, strict)
    decreases |t| - i, 1
  {
    hide ParseArray, ParseObject, ScanString, NotThere, NoneAt, At, Number;
    if CharAt(t, i, QUOTE) {
      QuotedErrorThere(t, i, strict);
    } else if CharAt(t, i, OPEN_BRACE) {
      ObjectErrorThere(t, i + 1, strict);
    } else if CharAt(t, i, OPEN_BRACKET) {
      ArrayErrorThere(t, i + 1, strict);
    } else {
      ErrorHere(t, i, strict);
      NoValueAt(t, i, strict);
      ValueMissing(t, i, strict);
    }
  }

  lemma ValueMissing(t: Text, i: nat, strict: bool)
    requires Behind(t, i) && NoneAt(t, i, ExpectingValue, strict)
    ensures NotThere(t, ExpectingValue, i, strict)
  {
  }

  lemma {:induction false} ArrayErrorThere(t: Text, i: nat, strict: bool)
    requires i <= |t| && ParseArray(t, i, strict).Error?
    ensures var r := ParseArray(t, i, strict); NotThere(t, r.message, r.pos, strict)
    decreases |t| - i, 3
  {
    hide ParseElements, NotThere;
    var e := Skip(t, i);
    if e == |t| {
      TextEnds(t, strict);
    } else {
      ElementsErrorThere(t, e, strict, []);
    }
  }

  lemma {:induction false} ElementsErrorThere(t: Text, i: nat, strict: bool, values: seq<Json>)
    requires Behind(t, i) && ParseElements(t, i, strict, values).Error?
    ensures var r := ParseElements(t, i, strict, values); NotThere(t, r.message, r.pos, strict)
    decreases |t| - i, 2
  {
    hide ParseValue, NotThere, Skip;
    var v := ParseValue(t, i, strict);
    if v.Error? {
      ValueErrorThere(t, i, strict);
    } else {
      var e := Skip(t, v.end);
      SkippedTo(t, v.end);
      if CharAt(t, e, COMMA) {
        SkippedTo(t, e + 1);
        ElementsErrorThere(t, Skip(t, e + 1), strict, values + [v.value]);
      } else {
        SignMissing(t, e, ExpectingCommaOrBracket, strict);
      }
    }
  }

  lemma {:induction false} ObjectErrorThere(t: Text, i: nat, strict: bool)
    requires 0 < i <= |t| && ParseObject(t, i, strict).Error?
    ensures var r := ParseObject(t, i, strict); NotThere(t, r.message, r.pos, strict)
    decreases |t| - i, 3
  {
    hide ParseMembers, NotThere, Skip;
    var e := Skip(t, i);
    SkippedTo(t, i);
    if CharAt(t, e, QUOTE) {
      SkipRises(t, i);
      MembersErrorThere(t, e + 1, strict, []);
    } else {
      NameMissing(t, e, strict);
    }
  }

  lemma SkipRises(t: Text, i: nat)
    requires i <= |t|
    ensures i <= Skip(t, i) <= |t|
  {
  }

  lemma NameErrorThere(t: Text, i: nat, strict: bool)
    requires 0 < i <= |t| && t[i - 1] == QUOTE && ParseName(t, i, strict).Error?
    ensures var r := ParseName(t, i, strict); NotThere(t, r.message, r.pos, strict)
  {
    hide ScanString, NotThere, Skip;
    var s := ScanString(t, i, i - 1, strict, []);
    if s.Error? {
      QuotedErrorThere(t, i - 1, strict);
    } else {
      SkippedTo(t, s.end);
      SignMissing(t, Skip(t, s.end), ExpectingColon, strict);
    }
  }

  lemma {:induction false} MembersErrorThere(t: Text, i: nat, strict: bool, pairs: seq<(Text, Json)>)
    requires 0 < i <= |t| && t[i - 1] == QUOTE && ParseMembers(t, i, strict, pairs).Error?
    ensures var r := ParseMembers(t, i, strict, pairs); NotThere(t, r.message, r.pos, strict)
    decreases |t| - i, 2
  {
    hide ParseValue, ParseName, NotThere, Skip, DictOf;
    var name := ParseName(t, i, strict);
    if name.Error? {
      NameErrorThere(t, i, strict);
    } else {
      BehindName(t, i, strict);
      var v := ParseValue(t, name.end, strict);
      if v.Error? {
        ValueErrorThere(t, name.end, strict);
      } else {
        var e := Skip(t, v.end);
        SkippedTo(t, v.end);
        SkippedTo(t, e + 1);
        var q := Skip(t, e + 1);
        if !CharAt(t, e, COMMA) {
          SignMissing(t, e, ExpectingCommaOrBrace, strict);
        } else if CharAt(t, q, QUOTE) {
          SkipRises(t, v.end);
          SkipRises(t, e + 1);
          MembersErrorThere(t, q + 1, strict, pairs + [(name.value, v.value)]);
        } else {
          NameMissing(t, q, strict);
        }
      }
    }
  }

  lemma BehindName(t: Text, i: nat, strict: bool)
    requires 0 < i <= |t| && ParseName(t, i, strict).Ok?
    ensures Behind(t, ParseName(t, i, strict).end)
  {
    hide ScanString;
  }

  lemma DecodeErrorThere(t: Text, strict: bool)
    requires Decode(t, strict).Error?
    ensures var r := Decode(t, strict); NotThere(t, r.message, r.pos, strict)
  {
    hide ParseValue, Skip;
    SkippedTo(t, 0);
    var v := ParseValue(t, Skip(t, 0), strict);
    if v.Error? {
      ValueErrorThere(t, Skip(t, 0), strict);
    } else {
      SkippedTo(t, v.end);
    }
  }

  // ---- What could stand there --------------------------------------------------------------------

  // It is the text from i to p, and then y and something else.
  ghost predicate Begun(whole: Text, t: Text, i: nat, p: int, y: Text, x: Text) {
    i <= p <= |t| && whole == t[i..p] + y + x
  }

  lemma BegunHere(t: Text, i: nat, y: Text, x: Text)
    requires i <= |t|
    ensures Begun(y + x, t, i, i, y, x)
  {
    assert t[i..i] == [];
  }

  lemma BegunBehind(first: Text, whole: Text, t: Text, i: nat, p: int, y: Text, x: Text)
    requires At(t, i, first) && Begun(whole, t, i + |first|, p, y, x)
    ensures Begun(first + whole, t, i, p, y, x)
  {
    assert t[i..p] == first + t[i + |first|..p];
  }

  lemma BegunMore(whole: Text, t: Text, i: nat, p: int, y: Text, x: Text, more: Text)
    requires Begun(whole, t, i, p, y, x)
    ensures Begun(whole + more, t, i, p, y, x + more)
  {
  }

  // ---- Strings begun -----------------------------------------------------------------------------

  lemma OneUnit(u: Unit, strict: bool)
    requires UnitOk(u, strict)
    ensures UnitsOk([u], strict) && UnitsText([u]) == u.text
  {
    assert [u][1..] == [];
  }

  // A backslash behind which no escape stands.
  lemma EscapeCompletes(t: Text, i: nat, begin: nat, strict: bool, y: Text) returns (us: seq<Unit>)
    requires CharAt(t, i, BACKSLASH) && Escape(t, i + 1, begin).Error? && !Escape(t, i + 1, begin).message.UnterminatedString?
    requires Wanted(Escape(t, i + 1, begin).message, y, strict)
    ensures UnitsOk(us, strict) && us != [] && !HexLow(us[0])
    ensures
      var r := Escape(t, i + 1, begin);
      Begun(UnitsText(us), t, i, Place(r.message, r.pos), y, [])
  {
    hide Hex4Value, Unescaped, Begun, UnitsText, UnitsOk;
    var r := Escape(t, i + 1, begin);
    EmptyRight(y);
    if r.message.InvalidEscape? {
      var u := Unit(Unescaped(y[0]).value, [BACKSLASH] + y);
      OneUnit(u, strict);
      us := [u];
      BegunHere(t, i + 1, y, []);
      AtChar(t, i, BACKSLASH);
      BegunBehind([BACKSLASH], y, t, i, i + 1, y, []);
    } else {
      var c :| HexOk(c, y) && !IsLowSurrogate(c);
      var u := Unit(c, y);
      OneUnit(u, strict);
      us := [u];
      BegunHere(t, r.pos, y, []);
      if r.pos != i {
        us := PairCompletes(t, i, begin, strict, u);
      }
    }
  }

  // The escape of a high surrogate, and another one behind it that is broken.
  lemma PairCompletes(t: Text, i: nat, begin: nat, strict: bool, u: Unit) returns (us: seq<Unit>)
    requires CharAt(t, i, BACKSLASH) && Escape(t, i + 1, begin).Error? && Escape(t, i + 1, begin).message.InvalidUnicodeEscape?
    requires Escape(t, i + 1, begin).pos != i && HexOk(u.c, u.text) && !IsLowSurrogate(u.c)
    requires Begun(u.text, t, Escape(t, i + 1, begin).pos, Escape(t, i + 1, begin).pos, u.text, [])
    ensures UnitsOk(us, strict) && us != [] && !HexLow(us[0])
    ensures Begun(UnitsText(us), t, i, Escape(t, i + 1, begin).pos, u.text, [])
  {
    hide Hex4Value, Begun, UnitsText, UnitsOk;
    var high := Unit(HexAt(t, i + 2).value, t[i..i + 6]);
    assert high.text[2..6] == t[i + 2..i + 6];
    assert HexHigh(high);
    OneUnit(u, strict);
    FirstUnit(high, [u], strict);
    us := [high, u];
    assert [high] + [u] == us;
    AtPiece(t, i, i + 6);
    BegunBehind(high.text, u.text, t, i, i + 6, u.text, []);
    TwoUnits(high, u);
  }

  lemma TwoUnits(u: Unit, v: Unit)
    ensures UnitsText([u, v]) == u.text + v.text
  {
    assert [u, v][1..] == [v] && [v][1..] == [];
    assert UnitsText([v]) == v.text;
  }

  lemma UnitsBehind(u: Unit, rest: seq<Unit>, t: Text, i: nat, p: int, y: Text, x: Text, strict: bool)
    requires UnitOk(u, strict) && UnitsOk(rest, strict) && (rest != [] ==> !(HexHigh(u) && HexLow(rest[0])))
    requires At(t, i, u.text) && Begun(UnitsText(rest) + [QUOTE], t, i + |u.text|, p, y, x)
    ensures UnitsOk([u] + rest, strict) && Begun(UnitsText([u] + rest) + [QUOTE], t, i, p, y, x)
  {
    hide Begun, UnitOk, UnitsOk, UnitsText, HexHigh, HexLow, At;
    FirstUnit(u, rest, strict);
    BegunBehind(u.text, UnitsText(rest) + [QUOTE], t, i, p, y, x);
  }

  // The characters of a string up to the error.
  lemma {:induction false} StringCompletes(t: Text, i: nat, begin: nat, strict: bool, acc: Text, y: Text) returns (us: seq<Unit>, x: Text)
    requires ScanString(t, i, begin, strict, acc).Error? && !ScanString(t, i, begin, strict, acc).message.UnterminatedString?
    requires Wanted(ScanString(t, i, begin, strict, acc).message, y, strict)
    ensures UnitsOk(us, strict) && (us != [] && HexLow(us[0]) ==> At(t, i, us[0].text))
    ensures
      var r := ScanString(t, i, begin, strict, acc);
      Begun(UnitsText(us) + [QUOTE], t, i, Place(r.message, r.pos), y, x)
    decreases |t| - i
  {
    hide Escape, Begun, Wanted, UnitsText, UnitsOk, UnitOk, HexHigh, HexLow, At;
    var r := ScanString(t, i, begin, strict, acc);
    if t[i] == BACKSLASH {
      if Escape(t, i + 1, begin).Error? {
        us := EscapeCompletes(t, i, begin, strict, y);
        x := [] + [QUOTE];
        BegunMore(UnitsText(us), t, i, Place(r.message, r.pos), y, [], [QUOTE]);
      } else {
        EscapeWritten(t, i, begin, strict);
        var u := EscapeUnit(t, i, begin);
        var rest;
        rest, x := StringCompletes(t, i + |u.text|, begin, strict, acc + [u.c], y);
        us := [u] + rest;
        AtPiece(t, i, i + |u.text|);
        if rest != [] && HexLow(rest[0]) {
          AfterEscape(t, i, begin, rest[0]);
        }
        UnitsBehind(u, rest, t, i, Place(r.message, r.pos), y, x, strict);
      }
    } else if t[i] < 0x20 && strict {
      us, x := [], [];
      NoUnits(strict);
      ControlWants(y, strict);
      BegunHere(t, i, y, []);
      EmptyLeft([QUOTE]);
      EmptyRight(y);
    } else {
      var u := Unit(t[i], [t[i]]);
      PlainWritten(u, strict);
      PlainNotHigh(u);
      var rest;
      rest, x := StringCompletes(t, i + 1, begin, strict, acc + [t[i]], y);
      us := [u] + rest;
      AtChar(t, i, t[i]);
      UnitsBehind(u, rest, t, i, Place(r.message, r.pos), y, x, strict);
    }
  }

  lemma ControlWants(y: Text, strict: bool)
    requires Wanted(InvalidControlCharacter, y, strict)
    ensures y == [QUOTE]
  {
  }

  lemma PlainNotHigh(u: Unit)
    requires |u.text| == 1
    ensures !HexHigh(u)
  {
  }

  lemma AfterEscape(t: Text, i: nat, begin: nat, v: Unit)
    requires CharAt(t, i, BACKSLASH) && Escape(t, i + 1, begin).Ok?
    requires HexLow(v) && At(t, i + |EscapeUnit(t, i, begin).text|, v.text)
    ensures !HexHigh(EscapeUnit(t, i, begin))
  {
    hide At, Hex4Value;
    var u := EscapeUnit(t, i, begin);
    if HexHigh(u) {
      assert u.text[1] == t[i + 1];
      HighAlone(t, i, begin, v);
    }
  }

  lemma QuotedCompletes(t: Text, i: nat, strict: bool, y: Text) returns (us: seq<Unit>, x: Text)
    requires CharAt(t, i, QUOTE) && ScanString(t, i + 1, i, strict, []).Error?
    requires Wanted(ScanString(t, i + 1, i, strict, []).message, y, strict)
    ensures UnitsOk(us, strict)
    ensures
      var r := ScanString(t, i + 1, i, strict, []);
      Begun(StringText(us), t, i, Place(r.message, r.pos), y, x)
  {
    hide ScanString, Begun, UnitsOk, UnitsText, At, NotThere;
    QuotedErrorThere(t, i, strict);
    var r := ScanString(t, i + 1, i, strict, []);
    if r.message.UnterminatedString? {
      us :| UnitsOk(us, strict) && y == StringText(us);
      x := [];
      BegunHere(t, i, y, []);
      EmptyRight(y);
    } else {
      us, x := StringCompletes(t, i + 1, i, strict, [], y);
      AtChar(t, i, QUOTE);
      BegunBehind([QUOTE], UnitsText(us) + [QUOTE], t, i, Place(r.message, r.pos), y, x);
      Group([QUOTE], UnitsText(us), [QUOTE]);
    }
  }

  // ---- Lists begun -------------------------------------------------------------------------------

  lemma {:induction false} ValueCompletes(t: Text, i: nat, strict: bool, y: Text) returns (l: Layout, x: Text)
    requires i <= |t| && ParseValue(t, i, strict).Error? && Wanted(ParseValue(t, i, strict).message, y, strict)
    ensures LayoutOk(l, strict)
    ensures
      var r := ParseValue(t, i, strict);
      Begun(TextOf(l), t, i, Place(r.message, r.pos), y, x)
    decreases |t| - i, 1
  {
    hide ParseArray, ParseObject, ScanString, Begun, At, Number, StringText, UnitsOk;
    if CharAt(t, i, QUOTE) {
      var us;
      us, x := QuotedCompletes(t, i, strict, y);
      l := LStr(us);
    } else if CharAt(t, i, OPEN_BRACE) {
      l, x := ObjectCompletes(t, i + 1, strict, y);
    } else if CharAt(t, i, OPEN_BRACKET) {
      l, x := ArrayCompletes(t, i + 1, strict, y);
    } else {
      ErrorHere(t, i, strict);
      l :| LayoutOk(l, strict) && y == TextOf(l);
      x := [];
      BegunHere(t, i, y, []);
      EmptyRight(y);
    }
  }

  lemma ListBegun(t: Text, i: nat, items: seq<Item>, strict: bool, p: int, y: Text, x: Text) returns (l: Layout)
    requires 0 < i <= |t| && t[i - 1] == OPEN_BRACKET && (items != [] ==> items[0].before == [])
    requires forall item :: item in items ==> ItemOk(item, strict)
    requires Begun((if items == [] then [] else ItemsText(items)) + [CLOSE_BRACKET], t, Skip(t, i), p, y, x)
    ensures LayoutOk(l, strict) && Begun(TextOf(l), t, i - 1, p, y, x)
  {
    hide Skip, Begun, ItemsText, ItemOk, LayoutOk, TextOf, IsBlank, ValueOf, ValuesOf, At;
    var e := Skip(t, i);
    SkipRises(t, i);
    SkippedBlank(t, i);
    AtPiece(t, i, e);
    AtChar(t, i - 1, OPEN_BRACKET);
    var blank, parts := t[i..e], if items == [] then [] else ItemsText(items);
    ListPieces(blank, items, strict);
    l := if items == [] then LList(blank, []) else LList([], WithBefore(items, blank));
    BegunBehind(blank, parts + [CLOSE_BRACKET], t, i, p, y, x);
    BegunBehind([OPEN_BRACKET], blank + (parts + [CLOSE_BRACKET]), t, i - 1, p, y, x);
    Enclosed([OPEN_BRACKET], blank, parts, [CLOSE_BRACKET]);
  }

  lemma Enclosed(a: Text, b: Text, c: Text, d: Text)
    ensures a + (b + (c + d)) == a + (b + c) + d
  {
  }

  // A list of one element with nothing around it.
  lemma OneItem(l: Layout, strict: bool)
    requires LayoutOk(l, strict)
    ensures
      var item := Item([], l, []);
      ItemOk(item, strict) && ItemText(item) == TextOf(l) && ItemsText([item]) == TextOf(l) && (forall i :: i in [item] ==> ItemOk(i, strict))
  {
    assert [] + TextOf(l) + [] == TextOf(l);
  }

  lemma {:induction false} ArrayCompletes(t: Text, i: nat, strict: bool, y: Text) returns (l: Layout, x: Text)
    requires 0 < i <= |t| && t[i - 1] == OPEN_BRACKET && ParseArray(t, i, strict).Error?
    requires Wanted(ParseArray(t, i, strict).message, y, strict)
    ensures LayoutOk(l, strict)
    ensures
      var r := ParseArray(t, i, strict);
      Begun(TextOf(l), t, i - 1, Place(r.message, r.pos), y, x)
    decreases |t| - i, 3
  {
    hide ParseElements, Begun, ItemsText, LayoutOk, TextOf, ItemOk;
    var e := Skip(t, i);
    var r := ParseArray(t, i, strict);
    var items: seq<Item> := [];
    if e < |t| {
      items, x := ElementsCompletes(t, e, strict, [], y);
    } else if y == [CLOSE_BRACKET] {
      x := [];
      BegunHere(t, e, y, []);
      EmptyLeft(y);
      EmptyRight(y);
    } else {
      var v :| LayoutOk(v, strict) && y == TextOf(v);
      OneItem(v, strict);
      items, x := [Item([], v, [])], [CLOSE_BRACKET];
      BegunHere(t, e, y, x);
    }
    l := ListBegun(t, i, items, strict, Place(r.message, r.pos), y, x);
  }

  const NOTHING: Item := Item([], LWord(Null), [])

  // What fails behind the first element.
  lemma ElementsFail(t: Text, i: nat, strict: bool, values: seq<Json>)
    requires i <= |t| && ParseElements(t, i, strict, values).Error? && ParseValue(t, i, strict).Ok?
    ensures
      var r, v := ParseElements(t, i, strict, values), ParseValue(t, i, strict);
      i < v.end <= |t| &&
      var e := Skip(t, v.end);
      v.end <= e <= |t| &&
      if !CharAt(t, e, COMMA) then r == Error(ExpectingCommaOrBracket, e)
      else
        var s := Skip(t, e + 1);
        e < s <= |t| && r == ParseElements(t, s, strict, values + [v.value])
  {
    hide Skip, ParseValue;
    SkipRises(t, ParseValue(t, i, strict).end);
    var e := Skip(t, ParseValue(t, i, strict).end);
    if e < |t| {
      SkipRises(t, e + 1);
    }
  }

  lemma {:induction false} ElementsCompletes(t: Text, i: nat, strict: bool, values: seq<Json>, y: Text) returns (items: seq<Item>, x: Text)
    requires i <= |t| && ParseElements(t, i, strict, values).Error?
    requires Wanted(ParseElements(t, i, strict, values).message, y, strict)
    ensures items != [] && items[0].before == [] && forall item :: item in items ==> ItemOk(item, strict)
    ensures
      var r := ParseElements(t, i, strict, values);
      Begun(ItemsText(items) + [CLOSE_BRACKET], t, i, Place(r.message, r.pos), y, x)
    decreases |t| - i, 2
  {
    hide ParseValue, Begun, ItemsText, ItemText, LayoutOk, TextOf, ItemOk, Skip, At, ValueOf, WithBefore, IsBlank;
    var v := ParseValue(t, i, strict);
    if v.Error? {
      var l;
      l, x := ValueCompletes(t, i, strict, y);
      OneItem(l, strict);
      items := [Item([], l, [])];
      BegunMore(TextOf(l), t, i, Place(v.message, v.pos), y, x, [CLOSE_BRACKET]);
      x := x + [CLOSE_BRACKET];
    } else {
      items, x := ElementsGoOn(t, i, strict, values, y);
    }
  }

  // The first element is there.
  lemma {:induction false} ElementsGoOn(t: Text, i: nat, strict: bool, values: seq<Json>, y: Text) returns (items: seq<Item>, x: Text)
    requires i <= |t| && ParseElements(t, i, strict, values).Error? && ParseValue(t, i, strict).Ok?
    requires Wanted(ParseElements(t, i, strict, values).message, y, strict)
    ensures items != [] && items[0].before == [] && forall item :: item in items ==> ItemOk(item, strict)
    ensures
      var r := ParseElements(t, i, strict, values);
      Begun(ItemsText(items) + [CLOSE_BRACKET], t, i, Place(r.message, r.pos), y, x)
    decreases |t| - i, 1
  {
    hide ParseValue, ParseElements, Begun, ItemsText, ItemText, ItemOk, Skip, At, ValueOf;
    var r := ParseElements(t, i, strict, values);
    var v := ParseValue(t, i, strict);
    var p := Place(r.message, r.pos);
    var item := ElementWritten(t, i, strict);
    LastItem(item, strict);
    ElementsFail(t, i, strict, values);
    var e := Skip(t, v.end);
    if CharAt(t, e, COMMA) {
      var rest;
      rest, x := ElementsCompletes(t, Skip(t, e + 1), strict, values + [v.value], y);
      items := ItemsBegun(t, i, item, rest, strict, p, y, x);
    } else if y == [COMMA] {
      items, x := ItemThenNull(t, i, item, strict);
    } else {
      items, x := [item], [];
      BegunHere(t, e, y, []);
      EmptyRight(y);
      BegunBehind(ItemText(item), y, t, i, p, y, []);
    }
  }

  lemma ItemThenNull(t: Text, i: nat, item: Item, strict: bool) returns (items: seq<Item>, x: Text)
    requires item.before == [] && ItemOk(item, strict) && At(t, i, ItemText(item)) && i + |ItemText(item)| <= |t|
    ensures items != [] && items[0].before == [] && forall m :: m in items ==> ItemOk(m, strict)
    ensures Begun(ItemsText(items) + [CLOSE_BRACKET], t, i, i + |ItemText(item)|, [COMMA], x)
  {
    hide Begun, ItemsText, ItemText, ItemOk, At;
    NothingOk(strict);
    items := [item, NOTHING];
    x := ItemText(NOTHING) + [CLOSE_BRACKET];
    TwoItems(item, NOTHING, strict);
    BegunHere(t, i + |ItemText(item)|, [COMMA], x);
    BegunBehind(ItemText(item), [COMMA] + x, t, i, i + |ItemText(item)|, [COMMA], x);
    Four(ItemText(item), [COMMA], ItemText(NOTHING), [CLOSE_BRACKET]);
  }

  lemma Four(a: Text, b: Text, c: Text, d: Text)
    ensures a + (b + (c + d)) == a + b + c + d
  {
  }

  lemma NothingOk(strict: bool)
    ensures ItemOk(NOTHING, strict) && ItemText(NOTHING) == NULL_WORD
  {
  }

  lemma TwoItems(a: Item, b: Item, strict: bool)
    requires ItemOk(a, strict) && ItemOk(b, strict)
    ensures ItemsText([a, b]) == ItemText(a) + [COMMA] + ItemText(b) && forall i :: i in [a, b] ==> ItemOk(i, strict)
  {
    hide ItemOk, ItemText;
    assert [a, b][1..] == [b];
  }

  // One more element in front of a list that is begun.
  lemma ItemsBegun(t: Text, i: nat, item: Item, rest: seq<Item>, strict: bool, p: int, y: Text, x: Text) returns (items: seq<Item>)
    requires item.before == [] && ItemOk(item, strict) && At(t, i, ItemText(item)) && CharAt(t, i + |ItemText(item)|, COMMA)
    requires rest != [] && rest[0].before == [] && forall r :: r in rest ==> ItemOk(r, strict)
    requires Begun(ItemsText(rest) + [CLOSE_BRACKET], t, Skip(t, i + |ItemText(item)| + 1), p, y, x)
    ensures items != [] && items[0].before == [] && forall r :: r in items ==> ItemOk(r, strict)
    ensures Begun(ItemsText(items) + [CLOSE_BRACKET], t, i, p, y, x)
  {
    hide Begun, ItemsText, ItemText, ItemOk, Skip, At, ValueOf, ValuesOf, WithBefore, IsBlank;
    var e := i + |ItemText(item)|;
    var s := Skip(t, e + 1);
    var blank := t[e + 1..s];
    SkippedBlank(t, e + 1);
    MoreItems(item, rest, blank, [], strict);
    items := [item] + WithBefore(rest, blank);
    PartsBegun(t, i, ItemText(item), ItemsText(rest), CLOSE_BRACKET, p, y, x);
  }

  lemma PartsBegun(t: Text, i: nat, first: Text, rest: Text, close: CodePoint, p: int, y: Text, x: Text)
    requires At(t, i, first) && CharAt(t, i + |first|, COMMA) && Begun(rest + [close], t, Skip(t, i + |first| + 1), p, y, x)
    ensures
      var e := i + |first|;
      e < Skip(t, e + 1) <= |t| && Begun(first + [COMMA] + (t[e + 1..Skip(t, e + 1)] + rest) + [close], t, i, p, y, x)
  {
    hide Begun, At, Skip;
    var e := i + |first|;
    var s := Skip(t, e + 1);
    SkipRises(t, e + 1);
    var blank := t[e + 1..s];
    AtPiece(t, e + 1, s);
    AtChar(t, e, COMMA);
    BegunBehind(blank, rest + [close], t, e + 1, p, y, x);
    BegunBehind([COMMA], blank + (rest + [close]), t, e, p, y, x);
    BegunBehind(first, [COMMA] + (blank + (rest + [close])), t, i, p, y, x);
    assert first + ([COMMA] + (blank + (rest + [close]))) == first + [COMMA] + (blank + rest) + [close];
  }

  // ---- Objects begun -----------------------------------------------------------------------------

  lemma ObjectBegun(t: Text, i: nat, members: seq<Member>, strict: bool, p: int, y: Text, x: Text) returns (l: Layout)
    requires 0 < i <= |t| && t[i - 1] == OPEN_BRACE && members != [] && members[0].before == []
    requires forall m :: m in members ==> MemberOk(m, strict)
    requires Begun(MembersText(members) + [CLOSE_BRACE], t, Skip(t, i), p, y, x)
    ensures LayoutOk(l, strict) && Begun(TextOf(l), t, i - 1, p, y, x)
  {
    hide Skip, Begun, MembersText, MemberOk, LayoutOk, TextOf, IsBlank, ValueOf, PairsOf, DictOf, At;
    var e := Skip(t, i);
    SkipRises(t, i);
    SkippedBlank(t, i);
    AtPiece(t, i, e);
    AtChar(t, i - 1, OPEN_BRACE);
    var blank, parts := t[i..e], MembersText(members);
    DictPieces(blank, members, strict);
    l := LDict([], WithMemberBefore(members, blank));
    BegunBehind(blank, parts + [CLOSE_BRACE], t, i, p, y, x);
    BegunBehind([OPEN_BRACE], blank + (parts + [CLOSE_BRACE]), t, i - 1, p, y, x);
    Enclosed([OPEN_BRACE], blank, parts, [CLOSE_BRACE]);
  }

  // One member that is written from its name, the whitespace around its colon and its value.
  lemma OneMember(us: seq<Unit>, a: Text, b: Text, l: Layout, strict: bool) returns (m: Member)
    requires UnitsOk(us, strict) && IsBlank(a) && IsBlank(b) && LayoutOk(l, strict)
    ensures m.before == [] && MemberOk(m, strict) && (forall n :: n in [m] ==> MemberOk(n, strict))
    ensures MembersText([m]) == MemberText(m) == Head(us, a, b) + TextOf(l)
  {
    hide UnitsOk, LayoutOk, StringText, TextOf;
    m := Member([], us, a, Item(b, l, []));
    assert [] + StringText(us) == StringText(us);
    assert b + TextOf(l) + [] == b + TextOf(l);
    Four(StringText(us) + a, [COLON], b, TextOf(l));
    assert MemberText(m) == StringText(us) + a + [COLON] + (b + TextOf(l));
  }

  // A member up to its value.
  function Head(us: seq<Unit>, a: Text, b: Text): Text {
    StringText(us) + a + [COLON] + b
  }

  // A name that stands there, up to the value.
  lemma NameWritten(t: Text, i: nat, strict: bool) returns (us: seq<Unit>, a: Text, b: Text)
    requires 0 < i <= |t| && t[i - 1] == QUOTE && ParseName(t, i, strict).Ok?
    ensures UnitsOk(us, strict) && IsBlank(a) && IsBlank(b) && At(t, i - 1, Head(us, a, b))
    ensures i - 1 + |Head(us, a, b)| == ParseName(t, i, strict).end
  {
    hide Skip, At, ScanString, ParseName, UnitsText, StringText, IsBlank, UnitsOk, Chars;
    NameUnfold(t, i, strict);
    us := StringWritten(t, i, i - 1, strict, []);
    var keyEnd := i + |UnitsText(us)| + 1;
    var colon := Skip(t, keyEnd);
    var start := Skip(t, colon + 1);
    a, b := t[keyEnd..colon], t[colon + 1..start];
    QuotedText(t, i - 1, us);
    SkippedBlank(t, keyEnd);
    SkippedBlank(t, colon + 1);
    AtPiece(t, keyEnd, colon);
    AtPiece(t, colon + 1, start);
    AtChar(t, colon, COLON);
    AtJoin(t, i - 1, StringText(us), a);
    AtJoin(t, i - 1, StringText(us) + a, [COLON]);
    AtJoin(t, i - 1, StringText(us) + a + [COLON], b);
  }

  // A name without its colon, up to where the colon could stand.
  lemma NameOnly(t: Text, i: nat, strict: bool) returns (us: seq<Unit>, a: Text)
    requires 0 < i <= |t| && t[i - 1] == QUOTE && ScanString(t, i, i - 1, strict, []).Ok?
    ensures UnitsOk(us, strict) && IsBlank(a) && At(t, i - 1, StringText(us) + a)
    ensures i - 1 + |StringText(us) + a| == Skip(t, ScanString(t, i, i - 1, strict, []).end)
  {
    hide Skip, At, ScanString, UnitsText, StringText, IsBlank, UnitsOk, Chars;
    us := StringWritten(t, i, i - 1, strict, []);
    var keyEnd := i + |UnitsText(us)| + 1;
    QuotedText(t, i - 1, us);
    AtBounds(t, i - 1, StringText(us));
    SkipRises(t, keyEnd);
    a := t[keyEnd..Skip(t, keyEnd)];
    SkippedBlank(t, keyEnd);
    AtPiece(t, keyEnd, Skip(t, keyEnd));
    AtJoin(t, i - 1, StringText(us), a);
  }

  lemma NullOk(strict: bool)
    ensures LayoutOk(LWord(Null), strict) && TextOf(LWord(Null)) == NULL_WORD && IsBlank([])
  {
  }

  // A member whose name is broken.
  lemma NameCompletes(t: Text, i: nat, strict: bool, y: Text) returns (m: Member, x: Text)
    requires 0 < i <= |t| && t[i - 1] == QUOTE && ParseName(t, i, strict).Error?
    requires Wanted(ParseName(t, i, strict).message, y, strict)
    ensures m.before == [] && MemberOk(m, strict) && forall n :: n in [m] ==> MemberOk(n, strict)
    ensures
      var r := ParseName(t, i, strict);
      Begun(MembersText([m]) + [CLOSE_BRACE], t, i - 1, Place(r.message, r.pos), y, x)
  {
    hide Skip, At, ScanString, StringText, TextOf, IsBlank, UnitsOk, Begun, MemberOk, MemberText, MembersText, LayoutOk;
    var r := ParseName(t, i, strict);
    var p := Place(r.message, r.pos);
    NullOk(strict);
    if ScanString(t, i, i - 1, strict, []).Error? {
      var us;
      us, x := QuotedCompletes(t, i - 1, strict, y);
      m := OneMember(us, [], [], LWord(Null), strict);
      EmptyRight(StringText(us));
      EmptyRight(StringText(us) + [COLON]);
      Four(StringText(us), [COLON], NULL_WORD, [CLOSE_BRACE]);
      BegunMore(StringText(us), t, i - 1, p, y, x, [COLON] + (NULL_WORD + [CLOSE_BRACE]));
      x := x + ([COLON] + (NULL_WORD + [CLOSE_BRACE]));
    } else {
      var us, a := NameOnly(t, i, strict);
      m := OneMember(us, a, [], LWord(Null), strict);
      EmptyRight(StringText(us) + a + [COLON]);
      x := NULL_WORD + [CLOSE_BRACE];
      SkippedTo(t, ScanString(t, i, i - 1, strict, []).end);
      BegunHere(t, r.pos, y, x);
      BegunBehind(StringText(us) + a, y + x, t, i - 1, p, y, x);
      Four(StringText(us) + a, y, NULL_WORD, [CLOSE_BRACE]);
    }
  }

  // A member could come here.
  lemma MemberCompletes(t: Text, q: nat, strict: bool, y: Text) returns (m: Member, x: Text)
    requires q <= |t| && IsString(y, strict)
    ensures m.before == [] && MemberOk(m, strict) && forall n :: n in [m] ==> MemberOk(n, strict)
    ensures Begun(MembersText([m]) + [CLOSE_BRACE], t, q, q, y, x)
  {
    hide StringText, TextOf, IsBlank, UnitsOk, Begun, MemberOk, MemberText, MembersText, LayoutOk;
    NullOk(strict);
    var us :| UnitsOk(us, strict) && y == StringText(us);
    m := OneMember(us, [], [], LWord(Null), strict);
    x := [COLON] + (NULL_WORD + [CLOSE_BRACE]);
    EmptyRight(StringText(us));
    EmptyRight(StringText(us) + [COLON]);
    Four(StringText(us), [COLON], NULL_WORD, [CLOSE_BRACE]);
    BegunHere(t, q, y, x);
  }

  lemma {:induction false} ObjectCompletes(t: Text, i: nat, strict: bool, y: Text) returns (l: Layout, x: Text)
    requires 0 < i <= |t| && t[i - 1] == OPEN_BRACE && ParseObject(t, i, strict).Error?
    requires Wanted(ParseObject(t, i, strict).message, y, strict)
    ensures LayoutOk(l, strict)
    ensures
      var r := ParseObject(t, i, strict);
      Begun(TextOf(l), t, i - 1, Place(r.message, r.pos), y, x)
    decreases |t| - i, 3
  {
    hide ParseMembers, Begun, MembersText, LayoutOk, TextOf, MemberOk, Skip, UnitsOk;
    var e := Skip(t, i);
    var r := ParseObject(t, i, strict);
    var members;
    SkipRises(t, i);
    if CharAt(t, e, QUOTE) {
      members, x := MembersCompletes(t, e + 1, strict, [], y);
    } else {
      var m;
      m, x := MemberCompletes(t, e, strict, y);
      members := [m];
    }
    l := ObjectBegun(t, i, members, strict, Place(r.message, r.pos), y, x);
  }

  lemma {:induction false} MembersCompletes(t: Text, i: nat, strict: bool, pairs: seq<(Text, Json)>, y: Text)
    returns (members: seq<Member>, x: Text)
    requires 0 < i <= |t| && t[i - 1] == QUOTE && ParseMembers(t, i, strict, pairs).Error?
    requires Wanted(ParseMembers(t, i, strict, pairs).message, y, strict)
    ensures members != [] && members[0].before == [] && forall m :: m in members ==> MemberOk(m, strict)
    ensures
      var r := ParseMembers(t, i, strict, pairs);
      Begun(MembersText(members) + [CLOSE_BRACE], t, i - 1, Place(r.message, r.pos), y, x)
    decreases |t| - i, 2
  {
    hide ParseValue, ParseName, Begun, MembersText, MemberText, MemberOk, Skip, At, ValueOf, IsBlank, DictOf, TextOf, LayoutOk, UnitsOk;
    hide WithMemberBefore, Head;
    var r := ParseMembers(t, i, strict, pairs);
    var name := ParseName(t, i, strict);
    var p := Place(r.message, r.pos);
    if name.Error? {
      var m;
      m, x := NameCompletes(t, i, strict, y);
      members := [m];
    } else {
      var v := ParseValue(t, name.end, strict);
      if v.Error? {
        var us, a, b := NameWritten(t, i, strict);
        var l;
        l, x := ValueCompletes(t, name.end, strict, y);
        var m := OneMember(us, a, b, l, strict);
        members := [m];
        BegunBehind(Head(us, a, b), TextOf(l), t, i - 1, p, y, x);
        BegunMore(Head(us, a, b) + TextOf(l), t, i - 1, p, y, x, [CLOSE_BRACE]);
        x := x + [CLOSE_BRACE];
      } else {
        members, x := MembersGoOn(t, i, strict, pairs, y);
      }
    }
  }

  // What fails behind the first member.
  lemma MembersFail(t: Text, i: nat, strict: bool, pairs: seq<(Text, Json)>)
    requires 0 < i <= |t| && ParseMembers(t, i, strict, pairs).Error?
    requires ParseName(t, i, strict).Ok? && ParseValue(t, ParseName(t, i, strict).end, strict).Ok?
    ensures
      var r, name := ParseMembers(t, i, strict, pairs), ParseName(t, i, strict);
      i < name.end <= |t| &&
      var v := ParseValue(t, name.end, strict);
      name.end < v.end <= |t| &&
      var e := Skip(t, v.end);
      v.end <= e <= |t| &&
      if !CharAt(t, e, COMMA) then r == Error(ExpectingCommaOrBrace, e)
      else
        var q := Skip(t, e + 1);
        e < q <= |t| &&
        r == if CharAt(t, q, QUOTE) then ParseMembers(t, q + 1, strict, pairs + [(name.value, v.value)]) else Error(ExpectingPropertyName, q)
  {
    hide Skip, ParseName, ParseValue, DictOf;
    SkipRises(t, ParseValue(t, ParseName(t, i, strict).end, strict).end);
    var e := Skip(t, ParseValue(t, ParseName(t, i, strict).end, strict).end);
    if e < |t| {
      SkipRises(t, e + 1);
    }
  }

  // The first member is there.
  lemma {:induction false} MembersGoOn(t: Text, i: nat, strict: bool, pairs: seq<(Text, Json)>, y: Text)
    returns (members: seq<Member>, x: Text)
    requires 0 < i <= |t| && t[i - 1] == QUOTE && ParseMembers(t, i, strict, pairs).Error?
    requires ParseName(t, i, strict).Ok? && ParseValue(t, ParseName(t, i, strict).end, strict).Ok?
    requires Wanted(ParseMembers(t, i, strict, pairs).message, y, strict)
    ensures members != [] && members[0].before == [] && forall m :: m in members ==> MemberOk(m, strict)
    ensures
      var r := ParseMembers(t, i, strict, pairs);
      Begun(MembersText(members) + [CLOSE_BRACE], t, i - 1, Place(r.message, r.pos), y, x)
    decreases |t| - i, 1
  {
    hide ParseValue, ParseName, ParseMembers, Begun, MembersText, MemberText, MemberOk, Skip, At, ValueOf, IsBlank, DictOf, UnitsOk;
    hide WithMemberBefore, Chars;
    var r := ParseMembers(t, i, strict, pairs);
    var p := Place(r.message, r.pos);
    var name := ParseName(t, i, strict);
    var v := ParseValue(t, name.end, strict);
    var m := MemberWrittenAt(t, i, strict);
    LastMember(m, strict);
    MembersFail(t, i, strict, pairs);
    var e := Skip(t, v.end);
    if CharAt(t, e, COMMA) {
      var q := Skip(t, e + 1);
      var rest;
      if CharAt(t, q, QUOTE) {
        rest, x := MembersCompletes(t, q + 1, strict, pairs + [(name.value, v.value)], y);
      } else {
        var next;
        next, x := MemberCompletes(t, q, strict, y);
        rest := [next];
      }
      members := MembersBegun(t, i - 1, m, rest, strict, p, y, x);
    } else if y == [COMMA] {
      members, x := MemberThenNull(t, i - 1, m, strict);
    } else {
      members, x := [m], [];
      BegunHere(t, e, y, []);
      EmptyRight(y);
      BegunBehind(MemberText(m), y, t, i - 1, p, y, []);
    }
  }

  lemma NoUnitsOk(strict: bool)
    ensures UnitsOk([], strict)
  {
  }

  lemma MemberThenNull(t: Text, i: nat, m: Member, strict: bool) returns (members: seq<Member>, x: Text)
    requires m.before == [] && MemberOk(m, strict) && At(t, i, MemberText(m)) && i + |MemberText(m)| <= |t|
    ensures members != [] && members[0].before == [] && forall n :: n in members ==> MemberOk(n, strict)
    ensures Begun(MembersText(members) + [CLOSE_BRACE], t, i, i + |MemberText(m)|, [COMMA], x)
  {
    hide Begun, MembersText, MemberText, MemberOk, At, UnitsOk, LayoutOk, IsBlank, Head, TextOf;
    NullOk(strict);
    NoUnitsOk(strict);
    var n := OneMember([], [], [], LWord(Null), strict);
    members := [m, n];
    x := MemberText(n) + [CLOSE_BRACE];
    TwoMembers(m, n, strict);
    BegunHere(t, i + |MemberText(m)|, [COMMA], x);
    BegunBehind(MemberText(m), [COMMA] + x, t, i, i + |MemberText(m)|, [COMMA], x);
    Four(MemberText(m), [COMMA], MemberText(n), [CLOSE_BRACE]);
  }

  lemma TwoMembers(a: Member, b: Member, strict: bool)
    requires MemberOk(a, strict) && MemberOk(b, strict)
    ensures MembersText([a, b]) == MemberText(a) + [COMMA] + MemberText(b) && forall m :: m in [a, b] ==> MemberOk(m, strict)
  {
    hide MemberOk, MemberText;
    assert [a, b][1..] == [b];
  }

  // One more member in front of an object that is begun.
  lemma MembersBegun(t: Text, i: nat, m: Member, rest: seq<Member>, strict: bool, p: int, y: Text, x: Text) returns (members: seq<Member>)
    requires m.before == [] && MemberOk(m, strict) && At(t, i, MemberText(m)) && CharAt(t, i + |MemberText(m)|, COMMA)
    requires rest != [] && rest[0].before == [] && forall r :: r in rest ==> MemberOk(r, strict)
    requires Begun(MembersText(rest) + [CLOSE_BRACE], t, Skip(t, i + |MemberText(m)| + 1), p, y, x)
    ensures members != [] && members[0].before == [] && forall r :: r in members ==> MemberOk(r, strict)
    ensures Begun(MembersText(members) + [CLOSE_BRACE], t, i, p, y, x)
  {
    hide Begun, MembersText, MemberText, MemberOk, Skip, At, ValueOf, PairsOf, WithMemberBefore, IsBlank, Chars;
    var e := i + |MemberText(m)|;
    var q := Skip(t, e + 1);
    var blank := t[e + 1..q];
    SkippedBlank(t, e + 1);
    MoreMembers(m, rest, blank, [], strict);
    members := [m] + WithMemberBefore(rest, blank);
    PartsBegun(t, i, MemberText(m), MembersText(rest), CLOSE_BRACE, p, y, x);
  }

  // ---- Documents begun ---------------------------------------------------------------------------

  lemma DocumentBegun(t: Text, i: nat, l: Layout, after: Text, strict: bool, p: int, y: Text, x: Text)
    requires i <= |t| && IsBlank(t[0..i]) && LayoutOk(l, strict) && IsBlank(after) && Begun(TextOf(l) + after, t, i, p, y, x)
    ensures 0 <= p <= |t| && Decode(t[..p] + y + x, strict).Ok?
  {
    hide Begun, IsBlank, LayoutOk, TextOf, Decode, At;
    AtPiece(t, 0, i);
    DocumentDecodes(t[0..i], l, after, strict);
    BegunBehind(t[0..i], TextOf(l) + after, t, 0, p, y, x);
    Group(t[0..i], TextOf(l), after);
    BegunFromStart(t[0..i] + TextOf(l) + after, t, p, y, x);
  }

  lemma BegunFromStart(whole: Text, t: Text, p: int, y: Text, x: Text)
    requires Begun(whole, t, 0, p, y, x)
    ensures 0 <= p <= |t| && whole == t[..p] + y + x
  {
  }

  /** An error is true: with what the message asks for, the text up to the place of the error can be
      completed to a document, and in the text itself that does not stand there. */
  ghost predicate ErrorTrue(t: Text, m: Message, pos: nat, strict: bool) {
    NotThere(t, m, pos, strict) &&
    forall y :: Wanted(m, y, strict) ==> exists x :: Decode(t[..Place(m, pos)] + y + x, strict).Ok?
  }

  lemma DecodeCompletes(t: Text, strict: bool, y: Text) returns (x: Text)
    requires Decode(t, strict).Error? && Wanted(Decode(t, strict).message, y, strict)
    ensures
      var r := Decode(t, strict);
      0 <= Place(r.message, r.pos) <= |t| && Decode(t[..Place(r.message, r.pos)] + y + x, strict).Ok?
  {
    hide ParseValue, Skip, Begun, TextOf, LayoutOk, IsBlank, At, ValueOf;
    var i := Skip(t, 0);
    var v := ParseValue(t, i, strict);
    var r := Decode(t, strict);
    SkippedBlank(t, 0);
    SkippedTo(t, 0);
    if v.Error? {
      var l;
      l, x := ValueCompletes(t, i, strict, y);
      EmptyRight(TextOf(l));
      NullOk(strict);
      DocumentBegun(t, i, l, [], strict, Place(r.message, r.pos), y, x);
    } else {
      var l := ValueWritten(t, i, strict);
      x := [];
      SkippedBlank(t, v.end);
      SkipRises(t, v.end);
      BegunHere(t, r.pos, y, x);
      AtPiece(t, v.end, r.pos);
      AtJoin(t, i, TextOf(l), t[v.end..r.pos]);
      EmptyRight(TextOf(l) + t[v.end..r.pos]);
      EmptyRight(y);
      BegunBehind(TextOf(l) + t[v.end..r.pos], y, t, i, r.pos, y, x);
      DocumentBegun(t, i, l, t[v.end..r.pos], strict, r.pos, y, x);
    }
  }

  /** Every error of the decoder is true. */
  lemma DecodeErrorTrue(t: Text, strict: bool)
    requires Decode(t, strict).Error?
    ensures ErrorTrue(t, Decode(t, strict).message, Decode(t, strict).pos, strict)
  {
    hide Decode, Wanted, NotThere;
    var r := Decode(t, strict);
    DecodeErrorThere(t, strict);
    PlaceInside(t, r.message, r.pos, strict);
    forall y | Wanted(r.message, y, strict) ensures exists x :: Decode(t[..Place(r.message, r.pos)] + y + x, strict).Ok? {
      var x := DecodeCompletes(t, strict, y);
    }
  }

  lemma PlaceInside(t: Text, m: Message, pos: nat, strict: bool)
    requires NotThere(t, m, pos, strict)
    ensures 0 <= Place(m, pos) <= |t|
  {
  }
}
