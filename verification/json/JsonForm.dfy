// The form of what the encoder writes: where the line breaks are, how far a line is indented and how
// a whole number is spelled.
module JsonForm {
  import opened JsonText
  import opened JsonParse
  import opened JsonLayout
  import opened JsonEncode
  import opened JsonRoundTrip

  /** A line is indented by one indent more for each level; without an indent there are no lines. */
  lemma {:induction false} IndentationGrows(o: Options, level: nat)
    ensures Indentation(o, 0) == if o.indent.Some? then [NEWLINE] else []
    ensures Indentation(o, level + 1) == Indentation(o, level) + if o.indent.Some? then o.indent.value else []
  {
    match o.indent
    case None =>
    case Some(indent) =>
      RepeatSnoc(indent, level);
      assert [NEWLINE] + (Repeat(indent, level) + indent) == ([NEWLINE] + Repeat(indent, level)) + indent;
  }

  lemma {:induction false} RepeatSnoc(t: Text, n: nat)
    ensures Repeat(t, n + 1) == Repeat(t, n) + t
  {
    if n == 0 {
      assert t + [] == [] + t;
    } else {
      RepeatSnoc(t, n - 1);
      assert t + (Repeat(t, n - 1) + t) == (t + Repeat(t, n - 1)) + t;
    }
  }

  // Where the whitespace stands around one of n parts of a list or an object at a level.
  predicate PartLaidOut(o: Options, level: nat, k: nat, n: nat, before: Text, after: Text) {
    before == (if k == 0 then [] else o.itemSeparator.after) + Indentation(o, level + 1) &&
    after == if k + 1 == n then Indentation(o, level) else o.itemSeparator.before
  }

  predicate AllAllowed(text: Text, o: Options) {
    forall c :: c in text ==> CharAllowed(c, o)
  }

  // No spelling of the character in the characters that the form allows is shorter.
  ghost predicate Briefest(u: Unit, o: Options) {
    AllAllowed(u.text, o) && forall text :: UnitOk(Unit(u.c, text), true) && AllAllowed(text, o) ==> |u.text| <= |text|
  }

  ghost predicate AllBriefest(us: seq<Unit>, o: Options) {
    forall u :: u in us ==> Briefest(u, o)
  }

  /** Each part of a list or an object stands on a line of its own, one level deeper, and the closing
      bracket stands on a line as deep as the one with the opening bracket. Empty lists and objects
      have nothing between the brackets. Strings are spelled as briefly as can be. */
  ghost predicate LaidOut(l: Layout, o: Options, level: nat)
    decreases l
  {
    match l
    case LList(blank, items) =>
      blank == [] && forall k :: 0 <= k < |items| ==>
        PartLaidOut(o, level, k, |items|, items[k].before, items[k].after) && LaidOut(items[k].layout, o, level + 1)
    case LDict(blank, members) =>
      blank == [] && forall k :: 0 <= k < |members| ==>
        PartLaidOut(o, level, k, |members|, members[k].before, members[k].value.after) &&
        members[k].beforeColon == o.keySeparator.before && members[k].value.before == o.keySeparator.after &&
        AllBriefest(members[k].name, o) && LaidOut(members[k].value.layout, o, level + 1)
    case LStr(us) => AllBriefest(us, o)
    case _ => true
  }

  lemma {:induction false} UnitsForBriefest(s: Text, o: Options)
    ensures AllBriefest(UnitsFor(s, o), o)
  {
    hide CharText, CharAllowed, UnitOk;
    if s != [] {
      UnitsForBriefest(s[1..], o);
      var u := Unit(s[0], CharText(s[0], o));
      CharTextChars(s[0], o);
      forall text | UnitOk(Unit(u.c, text), true) && AllAllowed(text, o) ensures |u.text| <= |text| {
        ShortestSpelling(s[0], o, text);
      }
      assert Briefest(u, o);
    }
  }

  lemma {:induction false} ItemsForAt(items: seq<Json>, o: Options, level: nat, before: Text, last: Text, k: nat)
    requires k < |items|
    ensures ItemsFor(items, o, level, before, last)[k] ==
      Item(if k == 0 then before else o.itemSeparator.after + Indentation(o, level), LayoutFor(items[k], o, level),
           if k + 1 == |items| then last else o.itemSeparator.before)
    decreases |items|
  {
    hide LayoutFor, Indentation, ItemsFor;
    ItemsForHead(items, o, level, before, last);
    if k > 0 {
      ItemsForAt(items[1..], o, level, o.itemSeparator.after + Indentation(o, level), last, k - 1);
    }
  }

  lemma ItemsForHead(items: seq<Json>, o: Options, level: nat, before: Text, last: Text)
    requires items != []
    ensures
      ItemsFor(items, o, level, before, last) ==
      [Item(before, LayoutFor(items[0], o, level), if |items| == 1 then last else o.itemSeparator.before)] +
      ItemsFor(items[1..], o, level, o.itemSeparator.after + Indentation(o, level), last)
  {
    hide LayoutFor, Indentation;
  }

  lemma {:induction false} MembersForAt(pairs: seq<(Text, Json)>, o: Options, level: nat, before: Text, last: Text, k: nat)
    requires k < |pairs|
    ensures MembersFor(pairs, o, level, before, last)[k] ==
      MemberFor(pairs[k], o, level, if k == 0 then before else o.itemSeparator.after + Indentation(o, level),
                if k + 1 == |pairs| then last else o.itemSeparator.before)
    decreases |pairs|
  {
    hide MemberFor, Indentation;
    if k > 0 {
      MembersForAt(pairs[1..], o, level, o.itemSeparator.after + Indentation(o, level), last, k - 1);
    }
  }

  lemma {:induction false} LayoutForLaidOut(v: Json, o: Options, level: nat)
    ensures LaidOut(LayoutFor(v, o, level), o, level)
    decreases v
  {
    hide Indentation, ItemsFor, MembersFor, AllBriefest, UnitsFor;
    var before, last := Indentation(o, level + 1), Indentation(o, level);
    assert [] + before == before;
    match v
    case Str(s) => UnitsForBriefest(s, o);
    case List(items) =>
      var laid := ItemsFor(items, o, level + 1, before, last);
      forall k | 0 <= k < |laid|
        ensures PartLaidOut(o, level, k, |laid|, laid[k].before, laid[k].after) && LaidOut(laid[k].layout, o, level + 1)
      {
        ItemsForAt(items, o, level + 1, before, last, k);
        LayoutForLaidOut(items[k], o, level + 1);
      }
    case Dict(pairs) =>
      var laid := MembersFor(pairs, o, level + 1, before, last);
      forall k | 0 <= k < |laid|
        ensures PartLaidOut(o, level, k, |laid|, laid[k].before, laid[k].value.after)
        ensures laid[k].beforeColon == o.keySeparator.before && laid[k].value.before == o.keySeparator.after
        ensures AllBriefest(laid[k].name, o) && LaidOut(laid[k].value.layout, o, level + 1)
      {
        MembersForAt(pairs, o, level + 1, before, last, k);
        UnitsForBriefest(pairs[k].0, o);
        LayoutForLaidOut(pairs[k].1, o, level + 1);
      }
    case _ =>
  }

  /** The encoder's text is a layout of the value in that form. */
  lemma EncodedForm(v: Json, o: Options, strict: bool) returns (l: Layout)
    requires Encodable(v, o) && OptionsOk(o)
    ensures Lays(l, v, Encode(v, o, 0), strict) && LaidOut(l, o, 0)
  {
    l := LayoutFor(v, o, 0);
    LayoutForLays(v, o, 0, strict);
    LayoutForLaidOut(v, o, 0);
  }

  // ---- Whole numbers ---------------------------------------------------------------------------

  // Digits without a zero in front are those of their number.
  lemma {:induction false} DecimalOfNat(digits: Text)
    requires digits != [] && (forall c :: c in digits ==> IsDigit(c)) && (digits[0] == ZERO ==> |digits| == 1)
    ensures Decimal(NatOf(digits)) == digits && (NatOf(digits) == 0 ==> digits == [ZERO])
    decreases |digits|
  {
    hide Decimal;
    var init, last := digits[..|digits| - 1], digits[|digits| - 1];
    OneDigit(last);
    assert last in digits && digits == init + [last];
    assert forall c :: c in init ==> c in digits;
    if |digits| == 1 {
      assert NatOf(init) == 0;
    } else {
      assert init[0] == digits[0];
      DecimalOfNat(init);
      OneDigitMore(NatOf(init), last);
    }
  }

  lemma OneDigit(digit: CodePoint)
    requires IsDigit(digit)
    ensures Decimal(digit - 0x30) == [digit]
  {
  }

  lemma OneDigitMore(n: nat, digit: CodePoint)
    requires IsDigit(digit) && n != 0
    ensures Decimal(n * 10 + (digit - 0x30)) == Decimal(n) + [digit]
  {
  }

  lemma IntDigits(x: Text, n: int)
    requires NumberOk(x) && Number(x, 0).value.value == Int(n)
    ensures
      var j := if x[0] == MINUS then 1 else 0;
      j < |x| && (forall c :: c in x[j..] ==> IsDigit(c)) && (x[j] == ZERO ==> |x| == j + 1) &&
      n == if j == 1 then 0 - NatOf(x[j..]) else NatOf(x[j..])
  {
    hide NatOf;
    assert x[0..|x|] == x && IntegerEnd(x, 0) == Some(|x|);
    var j := if x[0] == MINUS then 1 else 0;
    if x[j] != ZERO {
      assert DigitsEnd(x, j) == |x|;
    }
    forall c | c in x[j..] ensures IsDigit(c) {
      var k :| 0 <= k < |x[j..]| && x[j..][k] == c;
      assert x[j + k] == c;
    }
    assert x[0..] == x;
  }

  /** A whole number has one spelling, but for the zero with a minus, and that one is not written. */
  lemma IntSpelling(x: Text, n: int)
    requires NumberOk(x) && Number(x, 0).value.value == Int(n)
    ensures x == IntText(n) || x == [MINUS, ZERO]
    ensures IntText(n) != [MINUS, ZERO]
  {
    hide NumberOk, Number, NatOf;
    IntDigits(x, n);
    var j := if x[0] == MINUS then 1 else 0;
    DecimalOfNat(x[j..]);
    assert x == x[..j] + x[j..];
  }
}
