// What the decoder accepts is written like a value: every text that it reads is one of the
// ways to write down what it reads.
module JsonConverse {
  import opened JsonText
  import opened JsonParse
  import opened JsonLayout

  // ---- Pieces of a text --------------------------------------------------------------------------

  lemma AtJoin(t: Text, i: nat, x: Text, y: Text)
    requires At(t, i, x) && At(t, i + |x|, y)
    ensures At(t, i, x + y)
  {
    assert t[i..i + |x + y|] == t[i..i + |x|] + t[i + |x|..i + |x| + |y|];
  }

  lemma AtPiece(t: Text, i: nat, e: nat)
    requires i <= e <= |t|
    ensures At(t, i, t[i..e])
  {
  }

  lemma AtChar(t: Text, i: nat, c: CodePoint)
    requires CharAt(t, i, c)
    ensures At(t, i, [c])
  {
  }

  lemma SkippedBlank(t: Text, i: nat)
    requires i <= |t|
    ensures IsBlank(t[i..Skip(t, i)])
  {
  }

  // ---- Strings -------------------------------------------------------------------------------------

  function EscapeUnit(t: Text, i: nat, begin: nat): Unit
    requires i < |t| && Escape(t, i + 1, begin).Ok?
  {
    var r := Escape(t, i + 1, begin);
    Unit(r.value, t[i..r.end])
  }

  lemma EscapeWritten(t: Text, i: nat, begin: nat, strict: bool)
    requires CharAt(t, i, BACKSLASH) && Escape(t, i + 1, begin).Ok?
    ensures UnitOk(EscapeUnit(t, i, begin), strict)
  {
    var end := Escape(t, i + 1, begin).end;
    var text := t[i..end];
    hide Hex4Value, Unescaped;
    if t[i + 1] == SMALL_U {
      assert text[2..6] == t[i + 2..i + 6];
      if end == i + 12 {
        assert text[8..12] == t[i + 8..i + 12];
      }
    }
  }

  lemma PlainWritten(u: Unit, strict: bool)
    requires u.text == [u.c] && u.c != QUOTE && u.c != BACKSLASH && (strict ==> u.c >= 0x20)
    ensures UnitOk(u, strict)
  {
  }

  // The escape of a low surrogate behind that of a high one is taken with it.
  lemma HighAlone(t: Text, i: nat, begin: nat, v: Unit)
    requires CharAt(t, i, BACKSLASH) && CharAt(t, i + 1, SMALL_U) && Escape(t, i + 1, begin).Ok?
    requires Escape(t, i + 1, begin).end == i + 6 && IsHighSurrogate(Escape(t, i + 1, begin).value)
    requires At(t, i + 6, v.text)
    ensures !HexLow(v)
  {
    hide At, Hex4Value;
    if HexLow(v) {
      AtIndex(t, i + 6, v.text, 0);
      AtIndex(t, i + 6, v.text, 1);
      AtIndex(t, i + 6, v.text, 3);
      AtBounds(t, i + 6, v.text);
      HexThere(t, i + 6, v.text, 2);
      NoX(v.text[2..6]);
    }
  }

  // The first unit of what is left.
  lemma EscapeThenRest(t: Text, i: nat, begin: nat, rest: seq<Unit>)
    requires CharAt(t, i, BACKSLASH) && Escape(t, i + 1, begin).Ok?
    requires At(t, i + |EscapeUnit(t, i, begin).text|, UnitsText(rest) + [QUOTE])
    ensures rest != [] ==> !(HexHigh(EscapeUnit(t, i, begin)) && HexLow(rest[0]))
  {
    hide At, Hex4Value, Escape, UnitsText, HexLow;
    var r := Escape(t, i + 1, begin);
    UnitsHead(rest);
    if rest != [] && HexHigh(EscapeUnit(t, i, begin)) {
      assert t[i..r.end][1] == t[i + 1];
      AtConcat(t, r.end, rest[0].text, UnitsText(rest[1..]) + [QUOTE]);
      HighAlone(t, i, begin, rest[0]);
    }
  }

  // The first unit of a string that is read.
  lemma UnitWritten(t: Text, i: nat, begin: nat, strict: bool, acc: Text) returns (u: Unit)
    requires ScanString(t, i, begin, strict, acc).Ok? && t[i] != QUOTE
    ensures UnitOk(u, strict) && At(t, i, u.text) && u.text != []
    ensures ScanString(t, i, begin, strict, acc) == ScanString(t, i + |u.text|, begin, strict, acc + [u.c])
    ensures if t[i] == BACKSLASH then Escape(t, i + 1, begin).Ok? && u == EscapeUnit(t, i, begin) else !HexHigh(u)
  {
    hide At, Escape, UnitOk;
    if t[i] == BACKSLASH {
      EscapeWritten(t, i, begin, strict);
      u := EscapeUnit(t, i, begin);
      AtPiece(t, i, i + |u.text|);
    } else {
      u := Unit(t[i], [t[i]]);
      PlainWritten(u, strict);
      AtChar(t, i, t[i]);
    }
  }

  lemma {:induction false} StringWritten(t: Text, i: nat, begin: nat, strict: bool, acc: Text) returns (us: seq<Unit>)
    requires ScanString(t, i, begin, strict, acc).Ok?
    ensures UnitsOk(us, strict) && At(t, i, UnitsText(us) + [QUOTE])
    ensures ScanString(t, i, begin, strict, acc) == Ok(acc + Chars(us), i + |UnitsText(us)| + 1)
    decreases |t| - i
  {
    hide At, ScanString, UnitOk, UnitsOk, UnitsText, Chars, HexHigh, HexLow;
    QuoteFirst(t, i, begin, strict, acc);
    if t[i] == QUOTE {
      us := [];
      NoUnits(strict);
      AtChar(t, i, QUOTE);
      EmptyLeft([QUOTE]);
      EmptyRight(acc);
    } else {
      var u := UnitWritten(t, i, begin, strict, acc);
      var rest := StringWritten(t, i + |u.text|, begin, strict, acc + [u.c]);
      us := [u] + rest;
      if t[i] == BACKSLASH {
        EscapeThenRest(t, i, begin, rest);
      }
      FirstUnit(u, rest, strict);
      AtJoin(t, i, u.text, UnitsText(rest) + [QUOTE]);
      More(acc, u.c, Chars(rest));
    }
  }

  lemma QuoteFirst(t: Text, i: nat, begin: nat, strict: bool, acc: Text)
    requires ScanString(t, i, begin, strict, acc).Ok?
    ensures i < |t| && (t[i] == QUOTE ==> ScanString(t, i, begin, strict, acc) == Ok(acc, i + 1))
  {
  }

  lemma NoUnits(strict: bool)
    ensures UnitsOk([], strict) && UnitsText([]) == [] && Chars([]) == []
  {
  }

  // ---- Numbers -------------------------------------------------------------------------------------

  lemma {:induction false} DigitsEndSlice(t: Text, i: nat, n: nat, k: nat)
    requires i <= k <= n <= |t| && DigitsEnd(t, k) <= n
    ensures DigitsEnd(t[i..n], k - i) == DigitsEnd(t, k) - i
    decreases n - k
  {
    if k < n {
      assert t[i..n][k - i] == t[k];
      if IsDigit(t[k]) {
        DigitsEndSlice(t, i, n, k + 1);
      }
    }
  }

  lemma IntegerEndSlice(t: Text, i: nat, n: nat)
    requires i <= n <= |t| && IntegerEnd(t, i).Some? && IntegerEnd(t, i).value <= n
    ensures IntegerEnd(t[i..n], 0) == Some(IntegerEnd(t, i).value - i)
  {
    var j := if CharAt(t, i, MINUS) then i + 1 else i;
    assert t[i..n][0] == t[i] && t[i..n][j - i] == t[j];
    if t[j] != ZERO {
      DigitsEndSlice(t, i, n, j);
    }
  }

  lemma FractionEndSlice(t: Text, i: nat, n: nat, e: nat)
    requires i <= e <= n <= |t| && FractionEnd(t, e) <= n
    requires FractionEnd(t, e) == e && e < n ==> t[e] != DOT
    ensures FractionEnd(t[i..n], e - i) == FractionEnd(t, e) - i
  {
    if e < n {
      assert t[i..n][e - i] == t[e];
      if FractionEnd(t, e) > e {
        DigitsEndSlice(t, i, n, e + 1);
      }
    }
  }

  lemma ExponentEndSlice(t: Text, i: nat, f: nat)
    requires i <= f <= |t|
    ensures ExponentEnd(t[i..ExponentEnd(t, f)], f - i) == ExponentEnd(t, f) - i
  {
    var n := ExponentEnd(t, f);
    if n > f {
      var s := t[i..n];
      assert s[f - i] == t[f];
      var j := if CharAt(t, f + 1, MINUS) || CharAt(t, f + 1, PLUS) then f + 2 else f + 1;
      assert f + 1 < n && s[f + 1 - i] == t[f + 1];
      DigitsEndSlice(t, i, n, j);
    }
  }

  // Where an exponent follows, no point does.
  lemma NoFraction(t: Text, e: nat)
    requires e <= |t|
    ensures
      var f := FractionEnd(t, e);
      f == e && e < ExponentEnd(t, f) ==> t[e] != DOT
  {
  }

  lemma NumberWritten(t: Text, i: nat)
    requires i <= |t| && Number(t, i).Some?
    ensures
      var r := Number(t, i).value;
      i < r.end <= |t| && NumberOk(t[i..r.end]) && Number(t[i..r.end], 0).value.value == r.value
  {
    hide IntegerEnd, FractionEnd, ExponentEnd, IntOf;
    var e := IntegerEnd(t, i).value;
    var f := FractionEnd(t, e);
    var n := ExponentEnd(t, f);
    IntegerEndSlice(t, i, n);
    NoFraction(t, e);
    FractionEndSlice(t, i, n, e);
    ExponentEndSlice(t, i, f);
    assert t[i..n][0..n - i] == t[i..n] && t[i..n][0..e - i] == t[i..e];
  }

  // ---- Values --------------------------------------------------------------------------------------

  lemma QuotedText(t: Text, i: nat, us: seq<Unit>)
    requires CharAt(t, i, QUOTE) && At(t, i + 1, UnitsText(us) + [QUOTE])
    ensures At(t, i, StringText(us)) && |StringText(us)| == |UnitsText(us)| + 2 && [] + Chars(us) == Chars(us)
  {
    AtChar(t, i, QUOTE);
    AtJoin(t, i, [QUOTE], UnitsText(us) + [QUOTE]);
    assert [QUOTE] + (UnitsText(us) + [QUOTE]) == StringText(us);
  }

  lemma WordWritten(t: Text, i: nat, strict: bool)
    requires ParseValue(t, i, strict).Ok? && t[i] != QUOTE && t[i] != OPEN_BRACE && t[i] != OPEN_BRACKET
    requires Number(t, i).None? || ParseValue(t, i, strict) != Number(t, i).value
    ensures
      var l := LWord(ParseValue(t, i, strict).value);
      LayoutOk(l, strict) && At(t, i, TextOf(l)) && ParseValue(t, i, strict) == Ok(ValueOf(l), i + |TextOf(l)|)
  {
    hide Number, At;
  }

  lemma {:induction false} ValueWritten(t: Text, i: nat, strict: bool) returns (l: Layout)
    requires ParseValue(t, i, strict).Ok?
    ensures LayoutOk(l, strict) && At(t, i, TextOf(l))
    ensures ParseValue(t, i, strict) == Ok(ValueOf(l), i + |TextOf(l)|)
    decreases |t| - i, 1, 0
  {
    hide At, Skip, Number, ScanString, ParseArray, ParseObject, NumberOk, UnitsOk, UnitsText, Chars;
    var r := ParseValue(t, i, strict);
    if t[i] == QUOTE {
      var us := StringWritten(t, i + 1, i, strict, []);
      l := LStr(us);
      QuotedText(t, i, us);
    } else if t[i] == OPEN_BRACE {
      l := ObjectWritten(t, i + 1, strict);
    } else if t[i] == OPEN_BRACKET {
      l := ArrayWritten(t, i + 1, strict);
    } else if Number(t, i).Some? && r == Number(t, i).value {
      l := LNumber(t[i..r.end]);
      NumberWritten(t, i);
      AtPiece(t, i, r.end);
    } else {
      l := LWord(r.value);
      WordWritten(t, i, strict);
    }
  }

  // A list or an object from its bracket on: with nothing but whitespace in it, or with parts.
  lemma AtEnclosed(t: Text, i: nat, open: CodePoint, blank: Text, parts: Text, close: CodePoint)
    requires 0 < i && At(t, i - 1, [open]) && At(t, i, blank) && At(t, i + |blank|, parts + [close])
    ensures At(t, i - 1, [open] + (blank + parts) + [close])
  {
    hide At;
    AtJoin(t, i, blank, parts + [close]);
    AtJoin(t, i - 1, [open], blank + (parts + [close]));
    assert [open] + (blank + (parts + [close])) == [open] + (blank + parts) + [close];
  }

  lemma ListPieces(blank: Text, items: seq<Item>, strict: bool)
    requires IsBlank(blank) && (items != [] ==> items[0].before == []) && forall item :: item in items ==> ItemOk(item, strict)
    ensures
      var l := if items == [] then LList(blank, []) else LList([], WithBefore(items, blank));
      LayoutOk(l, strict) && ValueOf(l) == List(ValuesOf(items)) &&
      TextOf(l) == [OPEN_BRACKET] + (blank + if items == [] then [] else ItemsText(items)) + [CLOSE_BRACKET]
  {
    if items != [] {
      FirstItemBefore(items, blank, strict);
    } else {
      assert blank + [] == blank;
    }
  }

  lemma ArrayUnfold(t: Text, i: nat, strict: bool)
    requires 0 < i <= |t| && ParseArray(t, i, strict).Ok?
    ensures
      var e := Skip(t, i);
      i <= e < |t| &&
      ParseArray(t, i, strict) == if t[e] == CLOSE_BRACKET then Ok(List([]), e + 1) else ParseElements(t, e, strict, [])
  {
  }

  lemma {:induction false} ArrayWritten(t: Text, i: nat, strict: bool) returns (l: Layout)
    requires 0 < i <= |t| && t[i - 1] == OPEN_BRACKET && ParseArray(t, i, strict).Ok?
    ensures LayoutOk(l, strict) && At(t, i - 1, TextOf(l))
    ensures ParseArray(t, i, strict) == Ok(ValueOf(l), i - 1 + |TextOf(l)|)
    decreases |t| - i, 3, 0
  {
    hide At, Skip, ParseArray, ParseElements, ItemsText, TextOf, ValuesOf, ValueOf, ItemOk, LayoutOk, IsBlank;
    ArrayUnfold(t, i, strict);
    var e := Skip(t, i);
    var blank := t[i..e];
    SkippedBlank(t, i);
    AtPiece(t, i, e);
    AtChar(t, i - 1, OPEN_BRACKET);
    var items: seq<Item> := [];
    if t[e] == CLOSE_BRACKET {
      AtChar(t, e, CLOSE_BRACKET);
      assert [] + [CLOSE_BRACKET] == [CLOSE_BRACKET];
      AtEnclosed(t, i, OPEN_BRACKET, blank, [], CLOSE_BRACKET);
      NoParts();
    } else {
      items := ElementsWritten(t, e, strict, []);
      AtEnclosed(t, i, OPEN_BRACKET, blank, ItemsText(items), CLOSE_BRACKET);
      assert [] + ValuesOf(items) == ValuesOf(items);
    }
    ListPieces(blank, items, strict);
    l := if items == [] then LList(blank, []) else LList([], WithBefore(items, blank));
  }

  lemma NoParts()
    ensures ValuesOf([]) == [] && DictOf(PairsOf([])) == []
  {
  }

  // The whitespace in front of the first element.
  function WithBefore(items: seq<Item>, blank: Text): seq<Item>
    requires items != []
  {
    [items[0].(before := blank)] + items[1..]
  }

  lemma FirstItemBefore(items: seq<Item>, blank: Text, strict: bool)
    requires items != [] && items[0].before == [] && IsBlank(blank)
    requires forall item :: item in items ==> ItemOk(item, strict)
    ensures
      var all := WithBefore(items, blank);
      ItemsText(all) == blank + ItemsText(items) && ValuesOf(all) == ValuesOf(items) &&
      forall item :: item in all ==> ItemOk(item, strict)
  {
    var first := items[0].(before := blank);
    assert WithBefore(items, blank)[1..] == items[1..];
    assert ItemText(first) == blank + ItemText(items[0]);
    assert items[0] in items && ItemOk(first, strict);
    assert forall item :: item in items[1..] ==> item in items;
  }

  // What an accepted list of elements is made of.
  lemma ElementsUnfold(t: Text, i: nat, strict: bool, values: seq<Json>)
    requires i <= |t| && ParseElements(t, i, strict, values).Ok?
    ensures
      var v := ParseValue(t, i, strict);
      v.Ok? && i < v.end <= |t| &&
      var e := Skip(t, v.end);
      v.end <= e < |t| && (t[e] == CLOSE_BRACKET || t[e] == COMMA) &&
      ParseElements(t, i, strict, values) ==
        if t[e] == CLOSE_BRACKET then Ok(List(values + [v.value]), e + 1)
        else ParseElements(t, Skip(t, e + 1), strict, values + [v.value])
  {
  }

  // One more element in front.
  lemma MoreItems(item: Item, rest: seq<Item>, blank: Text, values: seq<Json>, strict: bool)
    requires rest != [] && rest[0].before == [] && IsBlank(blank) && ItemOk(item, strict)
    requires forall r :: r in rest ==> ItemOk(r, strict)
    ensures
      var items := [item] + WithBefore(rest, blank);
      items[0] == item &&
      ItemsText(items) == ItemText(item) + [COMMA] + (blank + ItemsText(rest)) &&
      values + [ValueOf(item.layout)] + ValuesOf(rest) == values + ValuesOf(items) &&
      forall r :: r in items ==> ItemOk(r, strict)
  {
    FirstItemBefore(rest, blank, strict);
    var items := [item] + WithBefore(rest, blank);
    assert items[1..] == WithBefore(rest, blank);
  }

  // An element behind which the list ends.
  lemma LastItem(item: Item, strict: bool)
    requires ItemOk(item, strict)
    ensures ItemsText([item]) == ItemText(item) && ValuesOf([item]) == [ValueOf(item.layout)]
    ensures forall r :: r in [item] ==> ItemOk(r, strict)
  {
    assert [item][1..] == [];
  }

  // A value and the whitespace behind it.
  lemma {:induction false} ElementWritten(t: Text, i: nat, strict: bool) returns (item: Item)
    requires ParseValue(t, i, strict).Ok?
    ensures item.before == [] && ItemOk(item, strict) && At(t, i, ItemText(item))
    ensures ParseValue(t, i, strict).value == ValueOf(item.layout)
    ensures i + |ItemText(item)| == Skip(t, ParseValue(t, i, strict).end)
    decreases |t| - i, 1, 1
  {
    hide At, Skip, ParseValue, TextOf, ValueOf;
    var l := ValueWritten(t, i, strict);
    var end := i + |TextOf(l)|;
    var e := Skip(t, end);
    item := Item([], l, t[end..e]);
    SkippedBlank(t, end);
    AtPiece(t, end, e);
    AtJoin(t, i, TextOf(l), t[end..e]);
    assert ItemText(item) == TextOf(l) + t[end..e];
  }

  lemma {:induction false} ElementsWritten(t: Text, i: nat, strict: bool, values: seq<Json>) returns (items: seq<Item>)
    requires i <= |t| && ParseElements(t, i, strict, values).Ok?
    ensures items != [] && items[0].before == [] && forall item :: item in items ==> ItemOk(item, strict)
    ensures At(t, i, ItemsText(items) + [CLOSE_BRACKET])
    ensures ParseElements(t, i, strict, values) == Ok(List(values + ValuesOf(items)), i + |ItemsText(items)| + 1)
    decreases |t| - i, 2, 0
  {
    hide At, Skip, ParseElements, ParseValue, ItemsText, ItemText, ValuesOf, ValueOf, ItemOk, IsBlank, WithBefore;
    ElementsUnfold(t, i, strict, values);
    var item := ElementWritten(t, i, strict);
    var e := i + |ItemText(item)|;
    if t[e] == CLOSE_BRACKET {
      items := [item];
      LastItem(item, strict);
      AtChar(t, e, CLOSE_BRACKET);
      AtJoin(t, i, ItemText(item), [CLOSE_BRACKET]);
    } else {
      var s := Skip(t, e + 1);
      var rest := ElementsWritten(t, s, strict, values + [ValueOf(item.layout)]);
      var blank := t[e + 1..s];
      items := [item] + WithBefore(rest, blank);
      SkippedBlank(t, e + 1);
      MoreItems(item, rest, blank, values, strict);
      ItemsJoin(t, i, item, rest, strict);
    }
  }

  lemma ItemsJoin(t: Text, i: nat, item: Item, rest: seq<Item>, strict: bool)
    requires rest != [] && rest[0].before == [] && ItemOk(item, strict) && forall r :: r in rest ==> ItemOk(r, strict)
    requires At(t, i, ItemText(item)) && CharAt(t, i + |ItemText(item)|, COMMA)
    requires At(t, Skip(t, i + |ItemText(item)| + 1), ItemsText(rest) + [CLOSE_BRACKET])
    ensures
      var e := i + |ItemText(item)|;
      var s := Skip(t, e + 1);
      e < s <= |t| &&
      var items := [item] + WithBefore(rest, t[e + 1..s]);
      At(t, i, ItemsText(items) + [CLOSE_BRACKET]) && i + |ItemsText(items)| == s + |ItemsText(rest)|
  {
    hide At, ItemsText, ItemText, ItemOk, IsBlank, Skip;
    var e := i + |ItemText(item)|;
    var s := Skip(t, e + 1);
    var blank := t[e + 1..s];
    SkippedBlank(t, e + 1);
    MoreItems(item, rest, blank, [], strict);
    AtPiece(t, e + 1, s);
    AtChar(t, e, COMMA);
    AtList(t, i, ItemText(item), COMMA, blank, ItemsText(rest), CLOSE_BRACKET);
  }

  lemma AtList(t: Text, i: nat, first: Text, comma: CodePoint, blank: Text, rest: Text, close: CodePoint)
    requires At(t, i, first) && At(t, i + |first|, [comma]) && At(t, i + |first| + 1, blank)
    requires At(t, i + |first| + 1 + |blank|, rest + [close])
    ensures At(t, i, first + [comma] + (blank + rest) + [close])
  {
    AtJoin(t, i + |first| + 1, blank, rest + [close]);
    AtJoin(t, i + |first|, [comma], blank + (rest + [close]));
    AtJoin(t, i, first, [comma] + (blank + (rest + [close])));
    assert first + ([comma] + (blank + (rest + [close]))) == first + [comma] + (blank + rest) + [close];
  }

  lemma DictPieces(blank: Text, members: seq<Member>, strict: bool)
    requires IsBlank(blank) && (members != [] ==> members[0].before == []) && forall m :: m in members ==> MemberOk(m, strict)
    ensures
      var l := if members == [] then LDict(blank, []) else LDict([], WithMemberBefore(members, blank));
      LayoutOk(l, strict) && ValueOf(l) == Dict(DictOf(PairsOf(members))) &&
      TextOf(l) == [OPEN_BRACE] + (blank + if members == [] then [] else MembersText(members)) + [CLOSE_BRACE]
  {
    if members != [] {
      FirstMemberBefore(members, blank, strict);
    } else {
      assert blank + [] == blank;
    }
  }

  lemma ObjectUnfold(t: Text, i: nat, strict: bool)
    requires 0 < i <= |t| && ParseObject(t, i, strict).Ok?
    ensures
      var e := Skip(t, i);
      i <= e < |t| && (t[e] == CLOSE_BRACE || t[e] == QUOTE) &&
      ParseObject(t, i, strict) == if t[e] == CLOSE_BRACE then Ok(Dict([]), e + 1) else ParseMembers(t, e + 1, strict, [])
  {
  }

  lemma {:induction false} ObjectWritten(t: Text, i: nat, strict: bool) returns (l: Layout)
    requires 0 < i <= |t| && t[i - 1] == OPEN_BRACE && ParseObject(t, i, strict).Ok?
    ensures LayoutOk(l, strict) && At(t, i - 1, TextOf(l))
    ensures ParseObject(t, i, strict) == Ok(ValueOf(l), i - 1 + |TextOf(l)|)
    decreases |t| - i, 3, 0
  {
    hide At, Skip, ParseObject, ParseMembers, MembersText, TextOf, PairsOf, DictOf, ValueOf, MemberOk, LayoutOk, IsBlank;
    ObjectUnfold(t, i, strict);
    var e := Skip(t, i);
    var blank := t[i..e];
    SkippedBlank(t, i);
    AtPiece(t, i, e);
    AtChar(t, i - 1, OPEN_BRACE);
    var members: seq<Member> := [];
    if t[e] == CLOSE_BRACE {
      AtChar(t, e, CLOSE_BRACE);
      assert [] + [CLOSE_BRACE] == [CLOSE_BRACE];
      AtEnclosed(t, i, OPEN_BRACE, blank, [], CLOSE_BRACE);
      NoParts();
    } else {
      members := MembersWritten(t, e + 1, strict, []);
      AtEnclosed(t, i, OPEN_BRACE, blank, MembersText(members), CLOSE_BRACE);
      assert [] + PairsOf(members) == PairsOf(members);
    }
    DictPieces(blank, members, strict);
    l := if members == [] then LDict(blank, []) else LDict([], WithMemberBefore(members, blank));
  }

  function WithMemberBefore(members: seq<Member>, blank: Text): seq<Member>
    requires members != []
  {
    [members[0].(before := blank)] + members[1..]
  }

  lemma FirstMemberBefore(members: seq<Member>, blank: Text, strict: bool)
    requires members != [] && members[0].before == [] && IsBlank(blank)
    requires forall m :: m in members ==> MemberOk(m, strict)
    ensures
      var all := WithMemberBefore(members, blank);
      MembersText(all) == blank + MembersText(members) && PairsOf(all) == PairsOf(members) &&
      forall m :: m in all ==> MemberOk(m, strict)
  {
    var first := members[0].(before := blank);
    assert WithMemberBefore(members, blank)[1..] == members[1..];
    assert MemberText(first) == blank + MemberText(members[0]);
    assert members[0] in members && MemberOk(first, strict);
    assert forall m :: m in members[1..] ==> m in members;
  }

  lemma NameUnfold(t: Text, i: nat, strict: bool)
    requires 0 < i <= |t| && ParseName(t, i, strict).Ok?
    ensures
      var s := ScanString(t, i, i - 1, strict, []);
      s.Ok? && i < s.end <= |t| &&
      var colon := Skip(t, s.end);
      s.end <= colon < |t| && t[colon] == COLON && colon + 1 <= Skip(t, colon + 1) <= |t| &&
      ParseName(t, i, strict) == Ok(s.value, Skip(t, colon + 1))
  {
  }

  /* One member: its name, which starts behind the quote at i - 1, its colon and its value with
     the whitespace behind it. */
  lemma {:induction false} MemberWrittenAt(t: Text, i: nat, strict: bool) returns (m: Member)
    requires 0 < i <= |t| && t[i - 1] == QUOTE && ParseName(t, i, strict).Ok?
    requires ParseValue(t, ParseName(t, i, strict).end, strict).Ok?
    ensures m.before == [] && MemberOk(m, strict) && At(t, i - 1, MemberText(m))
    ensures
      var name := ParseName(t, i, strict);
      var value := ParseValue(t, name.end, strict);
      name.value == Chars(m.name) && value.value == ValueOf(m.value.layout) && i - 1 + |MemberText(m)| == Skip(t, value.end)
    decreases |t| - i, 1, 0
  {
    hide At, Skip, ParseName, ParseValue, ScanString, UnitsText, ItemText, ValueOf, Chars, IsBlank;
    NameUnfold(t, i, strict);
    var us := StringWritten(t, i, i - 1, strict, []);
    var keyEnd := i + |UnitsText(us)| + 1;
    var colon := Skip(t, keyEnd);
    var start := Skip(t, colon + 1);
    var item := ElementWritten(t, start, strict);
    var a, b := t[keyEnd..colon], t[colon + 1..start];
    m := Member([], us, a, item.(before := b));
    assert [] + Chars(us) == Chars(us);
    SkippedBlank(t, keyEnd);
    SkippedBlank(t, colon + 1);
    AtPiece(t, keyEnd, colon);
    AtPiece(t, colon + 1, start);
    AtChar(t, i - 1, QUOTE);
    AtChar(t, colon, COLON);
    MemberPieces(m, item, b, strict);
    AtMember(t, i, UnitsText(us), a, b, ItemText(item));
  }

  lemma AtMember(t: Text, i: nat, name: Text, a: Text, b: Text, item: Text)
    requires 0 < i && At(t, i - 1, [QUOTE]) && At(t, i, name + [QUOTE]) && At(t, i + |name| + 1, a)
    requires At(t, i + |name| + 1 + |a|, [COLON]) && At(t, i + |name| + 2 + |a|, b)
    requires At(t, i + |name| + 2 + |a| + |b|, item)
    ensures At(t, i - 1, [QUOTE] + name + [QUOTE] + a + [COLON] + (b + item))
  {
    hide At;
    var value := b + item;
    AtJoin(t, i + |name| + 2 + |a|, b, item);
    AtJoin(t, i + |name| + 1 + |a|, [COLON], value);
    AtJoin(t, i + |name| + 1, a, [COLON] + value);
    AtJoin(t, i, name + [QUOTE], a + ([COLON] + value));
    AtJoin(t, i - 1, [QUOTE], name + [QUOTE] + (a + ([COLON] + value)));
    MemberRegroup(name, a, value);
  }

  lemma MemberRegroup(name: Text, a: Text, value: Text)
    ensures [QUOTE] + (name + [QUOTE] + (a + ([COLON] + value))) == [QUOTE] + name + [QUOTE] + a + [COLON] + value
  {
  }

  lemma MemberPieces(m: Member, item: Item, b: Text, strict: bool)
    requires m.before == [] && item.before == [] && m.value == item.(before := b)
    requires UnitsOk(m.name, strict) && IsBlank(m.beforeColon) && IsBlank(b) && ItemOk(item, strict)
    ensures MemberText(m) == [QUOTE] + UnitsText(m.name) + [QUOTE] + m.beforeColon + [COLON] + (b + ItemText(item))
    ensures MemberOk(m, strict)
  {
    assert ItemText(m.value) == b + ItemText(item);
    assert [] + StringText(m.name) == StringText(m.name);
  }

  lemma MembersUnfold(t: Text, i: nat, strict: bool, pairs: seq<(Text, Json)>)
    requires 0 < i <= |t| && ParseMembers(t, i, strict, pairs).Ok?
    ensures
      var name := ParseName(t, i, strict);
      name.Ok? && i < name.end <= |t| &&
      var v := ParseValue(t, name.end, strict);
      v.Ok? && name.end < v.end <= |t| &&
      var e := Skip(t, v.end);
      v.end <= e < |t| && (t[e] == CLOSE_BRACE || t[e] == COMMA) &&
      (t[e] == CLOSE_BRACE ==> ParseMembers(t, i, strict, pairs) == Ok(Dict(DictOf(pairs + [(name.value, v.value)])), e + 1)) &&
      (t[e] == COMMA ==>
        var q := Skip(t, e + 1);
        e < q < |t| && t[q] == QUOTE &&
        ParseMembers(t, i, strict, pairs) == ParseMembers(t, q + 1, strict, pairs + [(name.value, v.value)]))
  {
    hide Skip, ParseName, ParseValue, DictOf, ScanString;
  }

  lemma MoreMembers(m: Member, rest: seq<Member>, blank: Text, pairs: seq<(Text, Json)>, strict: bool)
    requires rest != [] && rest[0].before == [] && IsBlank(blank) && MemberOk(m, strict)
    requires forall r :: r in rest ==> MemberOk(r, strict)
    ensures
      var members := [m] + WithMemberBefore(rest, blank);
      members[0] == m &&
      MembersText(members) == MemberText(m) + [COMMA] + (blank + MembersText(rest)) &&
      pairs + [(Chars(m.name), ValueOf(m.value.layout))] + PairsOf(rest) == pairs + PairsOf(members) &&
      forall r :: r in members ==> MemberOk(r, strict)
  {
    FirstMemberBefore(rest, blank, strict);
    var members := [m] + WithMemberBefore(rest, blank);
    assert members[1..] == WithMemberBefore(rest, blank);
  }

  lemma MembersJoin(t: Text, i: nat, m: Member, rest: seq<Member>, strict: bool)
    requires rest != [] && rest[0].before == [] && MemberOk(m, strict) && forall r :: r in rest ==> MemberOk(r, strict)
    requires At(t, i, MemberText(m)) && CharAt(t, i + |MemberText(m)|, COMMA)
    requires At(t, Skip(t, i + |MemberText(m)| + 1), MembersText(rest) + [CLOSE_BRACE])
    ensures
      var e := i + |MemberText(m)|;
      var q := Skip(t, e + 1);
      e < q <= |t| &&
      var members := [m] + WithMemberBefore(rest, t[e + 1..q]);
      IsBlank(t[e + 1..q]) && At(t, i, MembersText(members) + [CLOSE_BRACE]) &&
      i + |MembersText(members)| == q + |MembersText(rest)|
  {
    hide At, MembersText, MemberText, MemberOk, IsBlank, Skip;
    var e := i + |MemberText(m)|;
    var q := Skip(t, e + 1);
    var blank := t[e + 1..q];
    SkippedBlank(t, e + 1);
    MoreMembers(m, rest, blank, [], strict);
    AtPiece(t, e + 1, q);
    AtChar(t, e, COMMA);
    AtList(t, i, MemberText(m), COMMA, blank, MembersText(rest), CLOSE_BRACE);
  }

  lemma LastMember(m: Member, strict: bool)
    requires MemberOk(m, strict)
    ensures MembersText([m]) == MemberText(m) && PairsOf([m]) == [(Chars(m.name), ValueOf(m.value.layout))]
    ensures forall r :: r in [m] ==> MemberOk(r, strict)
  {
    assert [m][1..] == [];
  }

  lemma {:induction false} MembersWritten(t: Text, i: nat, strict: bool, pairs: seq<(Text, Json)>) returns (members: seq<Member>)
    requires 0 < i <= |t| && t[i - 1] == QUOTE && ParseMembers(t, i, strict, pairs).Ok?
    ensures members != [] && members[0].before == [] && forall m :: m in members ==> MemberOk(m, strict)
    ensures At(t, i - 1, MembersText(members) + [CLOSE_BRACE])
    ensures ParseMembers(t, i, strict, pairs) == Ok(Dict(DictOf(pairs + PairsOf(members))), i - 1 + |MembersText(members)| + 1)
    decreases |t| - i, 2, 0
  {
    hide At, Skip, ParseMembers, ParseName, ParseValue, MembersText, MemberText, PairsOf, ValueOf, Chars, MemberOk, IsBlank, DictOf, WithMemberBefore;
    MembersUnfold(t, i, strict, pairs);
    var m := MemberWrittenAt(t, i, strict);
    var e := i - 1 + |MemberText(m)|;
    var pair := (Chars(m.name), ValueOf(m.value.layout));
    if t[e] == CLOSE_BRACE {
      members := [m];
      LastMember(m, strict);
      AtChar(t, e, CLOSE_BRACE);
      AtJoin(t, i - 1, MemberText(m), [CLOSE_BRACE]);
    } else {
      var q := Skip(t, e + 1);
      var rest := MembersWritten(t, q + 1, strict, pairs + [pair]);
      members := [m] + WithMemberBefore(rest, t[e + 1..q]);
      MoreMembers(m, rest, t[e + 1..q], pairs, strict);
      MembersJoin(t, i - 1, m, rest, strict);
    }
  }

  /** The decoder accepts nothing but values written down, with any whitespace around them. */
  lemma DecodedWritten(s: Text, strict: bool) returns (before: Text, l: Layout, after: Text)
    requires Decode(s, strict).Ok?
    ensures IsBlank(before) && LayoutOk(l, strict) && IsBlank(after)
    ensures s == before + TextOf(l) + after && Decode(s, strict) == Ok(ValueOf(l), |s|)
  {
    hide Skip, ParseValue, TextOf, ValueOf, IsBlank, LayoutOk;
    var i := Skip(s, 0);
    l := ValueWritten(s, i, strict);
    var end := i + |TextOf(l)|;
    before, after := s[0..i], s[end..];
    SkippedBlank(s, 0);
    SkippedBlank(s, end);
    ThreePieces(s, i, end);
  }

  lemma ThreePieces(s: Text, i: nat, e: nat)
    requires i <= e <= |s|
    ensures s == s[0..i] + s[i..e] + s[e..] && s[e..|s|] == s[e..]
  {
  }

  // A document: a value written down, with whitespace before and behind it.
  ghost predicate Document(s: Text, before: Text, l: Layout, after: Text, strict: bool) {
    IsBlank(before) && LayoutOk(l, strict) && IsBlank(after) && s == before + TextOf(l) + after
  }

  /** A text is accepted exactly when it is a document, and of all the documents that it is the
      value is the same, which is the one it decodes to. */
  lemma DecodesIff(s: Text, v: Json, strict: bool)
    ensures Decode(s, strict).Ok? <==> exists before, l, after :: Document(s, before, l, after, strict)
    ensures Decode(s, strict) == Ok(v, |s|) <==> exists before, l, after :: Document(s, before, l, after, strict) && ValueOf(l) == v
    ensures forall before, l, after :: Document(s, before, l, after, strict) ==> Decode(s, strict) == Ok(ValueOf(l), |s|)
  {
    hide Decode, TextOf, ValueOf, IsBlank, LayoutOk;
    if Decode(s, strict).Ok? {
      var before, l, after := DecodedWritten(s, strict);
      assert Document(s, before, l, after, strict);
    }
    forall before, l, after | Document(s, before, l, after, strict) ensures Decode(s, strict) == Ok(ValueOf(l), |s|) {
      DocumentDecodes(before, l, after, strict);
    }
  }
}
