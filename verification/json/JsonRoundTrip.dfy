// The encoder's text is one of the layouts of its value.
module JsonRoundTrip {
  import opened JsonText
  import opened JsonParse
  import opened JsonLayout
  import opened JsonEncode

  // The layout is well written, has the encoder's text and means the value.
  ghost predicate Lays(l: Layout, v: Json, text: Text, strict: bool) {
    LayoutOk(l, strict) && TextOf(l) == text && ValueOf(l) == v
  }

  lemma {:induction false} LayoutForLays(v: Json, o: Options, level: nat, strict: bool)
    requires Encodable(v, o) && OptionsOk(o)
    ensures Lays(LayoutFor(v, o, level), v, Encode(v, o, level), strict)
    decreases v, 0
  {
    match v
    case Int(n) =>
      IntNumberOk(n);
    case Float(x) =>
    case Str(s) =>
      UnitsForOk(s, o, strict);
    case List(items) =>
      ListLays(items, o, level, strict);
    case Dict(pairs) =>
      DictLays(pairs, o, level, strict);
    case _ =>
  }

  lemma {:induction false} ListLays(items: seq<Json>, o: Options, level: nat, strict: bool)
    requires (forall k :: 0 <= k < |items| ==> Encodable(items[k], o)) && OptionsOk(o)
    ensures Lays(LayoutFor(List(items), o, level), List(items), Encode(List(items), o, level), strict)
    decreases items, 3
  {
    if items != [] {
      var before, last := Indentation(o, level + 1), Indentation(o, level);
      ItemsLay(items, o, level + 1, before, last, strict);
      hide Indentation, EncodeItems, ItemsFor, ItemsText, ItemOk, ValuesOf, Encodable, IsBlank;
      Enclose([OPEN_BRACKET], before, EncodeItems(items, o, level + 1), last, [CLOSE_BRACKET]);
    }
  }

  lemma Enclose(a: Text, b: Text, c: Text, d: Text, e: Text)
    ensures a + (b + c + d) + e == a + b + c + d + e
  {
  }

  lemma {:induction false} ItemsLay(items: seq<Json>, o: Options, level: nat, before: Text, last: Text, strict: bool)
    requires items != [] && (forall k :: 0 <= k < |items| ==> Encodable(items[k], o)) && OptionsOk(o)
    requires IsBlank(before) && IsBlank(last)
    ensures
      var l := ItemsFor(items, o, level, before, last);
      (forall item :: item in l ==> ItemOk(item, strict)) && ValuesOf(l) == items &&
      ItemsText(l) == before + EncodeItems(items, o, level) + last
    decreases items, 2
  {
    hide Indentation, Encode, LayoutFor, LayoutOk, Encodable, IsBlank, ValueOf;
    var l := ItemsFor(items, o, level, before, last);
    var text := Encode(items[0], o, level);
    LayoutForLays(items[0], o, level, strict);
    if |items| == 1 {
      assert ItemsFor(items[1..], o, level, o.itemSeparator.after + Indentation(o, level), last) == [];
      assert ValuesOf(l[1..]) == [];
      assert l == [Item(before, LayoutFor(items[0], o, level), last)];
    } else {
      var before' := o.itemSeparator.after + Indentation(o, level);
      BlankAppend(o.itemSeparator.after, Indentation(o, level));
      ItemsLay(items[1..], o, level, before', last, strict);
      var rest := ItemsFor(items[1..], o, level, before', last);
      assert l[1..] == rest;
      Chain(before, text, o.itemSeparator.before, o.itemSeparator.after, Indentation(o, level),
            EncodeItems(items[1..], o, level), last);
    }
  }

  lemma BlankAppend(a: Text, b: Text)
    requires IsBlank(a) && IsBlank(b)
    ensures IsBlank(a + b)
  {
  }

  lemma Chain(before: Text, text: Text, s: Text, t: Text, nl: Text, rest: Text, last: Text)
    ensures (before + text + s) + [COMMA] + ((t + nl) + rest + last)
         == before + (text + ((s + [COMMA] + t) + nl) + rest) + last
  {
  }

  lemma {:induction false} DictLays(pairs: seq<(Text, Json)>, o: Options, level: nat, strict: bool)
    requires DistinctKeys(pairs) && (forall k :: 0 <= k < |pairs| ==> PairEncodable(pairs[k], o)) && OptionsOk(o)
    ensures Lays(LayoutFor(Dict(pairs), o, level), Dict(pairs), Encode(Dict(pairs), o, level), strict)
    decreases pairs, 3
  {
    hide PairEncodable, DictOf, Lays, EncodePairs, MemberFor;
    DictOfDistinct(pairs);
    if pairs == [] {
      EmptyDictLaid(strict);
    } else {
      var before, last := Indentation(o, level + 1), Indentation(o, level);
      MembersLay(pairs, o, level + 1, before, last, strict);
      DictLaid(pairs, MembersFor(pairs, o, level + 1, before, last), before, EncodePairs(pairs, o, level + 1), last, strict);
    }
  }

  lemma EmptyDictLaid(strict: bool)
    ensures Lays(LDict([], []), Dict([]), [OPEN_BRACE, CLOSE_BRACE], strict)
  {
  }

  lemma DictLaid(pairs: seq<(Text, Json)>, members: seq<Member>, before: Text, inner: Text, last: Text, strict: bool)
    requires members != [] && (forall m :: m in members ==> MemberOk(m, strict)) && PairsOf(members) == pairs == DictOf(pairs)
    requires MembersText(members) == before + inner + last
    ensures Lays(LDict([], members), Dict(pairs), [OPEN_BRACE] + before + inner + last + [CLOSE_BRACE], strict)
  {
    hide MembersText, MemberOk, PairsOf, DictOf;
    Enclose([OPEN_BRACE], before, inner, last, [CLOSE_BRACE]);
  }

  lemma {:induction false} MemberLays(pair: (Text, Json), o: Options, level: nat, before: Text, after: Text, strict: bool)
    requires PairEncodable(pair, o) && OptionsOk(o) && IsBlank(before) && IsBlank(after)
    ensures
      var m := MemberFor(pair, o, level, before, after);
      MemberOk(m, strict) && Chars(m.name) == pair.0 && ValueOf(m.value.layout) == pair.1 &&
      MemberText(m) == before + EncodePair(pair, o, level) + after
    decreases pair, 1
  {
    hide Encode, LayoutFor, LayoutOk, Encodable, IsBlank, ValueOf, UnitsOk, UnitsText, CharsText;
    UnitsForOk(pair.0, o, strict);
    LayoutForLays(pair.1, o, level, strict);
    Colons(before, EncodeString(pair.0, o), o.keySeparator.before, o.keySeparator.after, Encode(pair.1, o, level), after);
  }

  lemma Colons(before: Text, name: Text, s: Text, t: Text, text: Text, after: Text)
    ensures before + name + s + [COLON] + (t + text + after) == before + (name + (s + [COLON] + t) + text) + after
  {
  }

  lemma {:induction false} MembersLay(pairs: seq<(Text, Json)>, o: Options, level: nat, before: Text, last: Text, strict: bool)
    requires pairs != [] && (forall k :: 0 <= k < |pairs| ==> PairEncodable(pairs[k], o)) && OptionsOk(o)
    requires IsBlank(before) && IsBlank(last)
    ensures
      var l := MembersFor(pairs, o, level, before, last);
      (forall m :: m in l ==> MemberOk(m, strict)) && PairsOf(l) == pairs &&
      MembersText(l) == before + EncodePairs(pairs, o, level) + last
    decreases pairs, 2
  {
    hide Indentation, EncodePair, MemberFor, MemberOk, MemberText, PairEncodable, IsBlank, ValueOf, Chars;
    var l := MembersFor(pairs, o, level, before, last);
    var text := EncodePair(pairs[0], o, level);
    if |pairs| == 1 {
      MemberLays(pairs[0], o, level, before, last, strict);
      assert MembersFor(pairs[1..], o, level, o.itemSeparator.after + Indentation(o, level), last) == [];
      assert PairsOf(l[1..]) == [];
      assert l == [MemberFor(pairs[0], o, level, before, last)];
    } else {
      var before' := o.itemSeparator.after + Indentation(o, level);
      BlankAppend(o.itemSeparator.after, Indentation(o, level));
      MemberLays(pairs[0], o, level, before, o.itemSeparator.before, strict);
      MembersLay(pairs[1..], o, level, before', last, strict);
      assert l[1..] == MembersFor(pairs[1..], o, level, before', last);
      Chain(before, text, o.itemSeparator.before, o.itemSeparator.after, Indentation(o, level),
            EncodePairs(pairs[1..], o, level), last);
    }
  }

  /** Decoding what was encoded gives the value back, whatever the options. */
  lemma EncodeDecode(v: Json, o: Options, strict: bool)
    requires Encodable(v, o) && OptionsOk(o)
    ensures Decode(Encode(v, o, 0), strict) == Ok(v, |Encode(v, o, 0)|)
  {
    hide Encode, Decode, LayoutFor;
    LayoutForLays(v, o, 0, strict);
    DocumentDecodes([], LayoutFor(v, o, 0), [], strict);
    assert [] + Encode(v, o, 0) + [] == Encode(v, o, 0);
  }
}
