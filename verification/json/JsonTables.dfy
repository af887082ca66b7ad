// The tables of the codec, told apart from the way they are coded: by the characters as they are
// written down, by the order of the code points and by what a dict built from pairs holds.
module JsonTables {
  import opened JsonText
  import opened JsonParse

  function Codes(s: string): (t: Text)
    requires forall c :: c in s ==> c < '\U{80}'
    ensures |t| == |s| && forall k :: 0 <= k < |s| ==> t[k] == s[k] as int
  {
    seq(|s|, k requires 0 <= k < |s| => assert s[k] in s; s[k] as int)
  }

  /** The words and the signs of the language. */
  lemma Words()
    ensures NULL_WORD == Codes("null") && TRUE_WORD == Codes("true") && FALSE_WORD == Codes("false")
    ensures NAN_WORD == Codes("NaN") && INFINITY_WORD == Codes("Infinity")
    ensures [OPEN_BRACKET, CLOSE_BRACKET, OPEN_BRACE, CLOSE_BRACE, COMMA, COLON, QUOTE, BACKSLASH, SMALL_U] == Codes("[]{},:\"\\u")
    ensures forall c :: IsWhitespace(c) <==> c in Codes(" \t\n\r")
    ensures forall c :: IsDigit(c) <==> c in Codes("0123456789")
    ensures forall c :: IsExponent(c) <==> c in Codes("eE")
  {
    var digits := Codes("0123456789");
    forall c | IsDigit(c) ensures c in digits {
      assert digits[c - 0x30] == c;
    }
    var blanks, signs := Codes(" \t\n\r"), Codes("eE");
    assert blanks == [0x20, 0x09, 0x0A, 0x0D] && signs == [0x65, 0x45];
  }

  const ESCAPED: string := "\"\\/bfnrt"
  const UNESCAPED: string := "\"\\/\U{8}\U{C}\n\r\t"

  /** A short escape is one of eight, and the character it stands for is found at the same place. */
  lemma UnescapedIff(c: CodePoint, d: CodePoint)
    ensures Unescaped(c) == Some(d) <==> exists k :: 0 <= k < 8 && c == Codes(ESCAPED)[k] && d == Codes(UNESCAPED)[k]
  {
    var from, to := Codes(ESCAPED), Codes(UNESCAPED);
    assert from == [0x22, 0x5C, 0x2F, 0x62, 0x66, 0x6E, 0x72, 0x74];
    assert to == [0x22, 0x5C, 0x2F, 0x08, 0x0C, 0x0A, 0x0D, 0x09];
    if Unescaped(c) == Some(d) {
      var k := match c
        case 0x22 => 0
        case 0x5C => 1
        case 0x2F => 2
        case 0x62 => 3
        case 0x66 => 4
        case 0x6E => 5
        case 0x72 => 6
        case _ => 7;
      assert c == from[k] && d == to[k];
    }
  }

  // ---- Hexadecimal numbers ---------------------------------------------------------------------

  const SMALL_DIGITS: string := "0123456789abcdef"
  const CAPITAL_DIGITS: string := "0123456789ABCDEF"

  predicate IsHexDigit(c: CodePoint, d: nat) {
    d < 16 && (c == Codes(SMALL_DIGITS)[d] || c == Codes(CAPITAL_DIGITS)[d])
  }

  lemma HexValueIff(c: CodePoint, d: nat)
    ensures HexValue(c) == Some(d) <==> IsHexDigit(c, d)
  {
    var small, capital := Codes(SMALL_DIGITS), Codes(CAPITAL_DIGITS);
    assert small[..10] == [48, 49, 50, 51, 52, 53, 54, 55, 56, 57] == capital[..10];
    assert small[10..] == [97, 98, 99, 100, 101, 102] && capital[10..] == [65, 66, 67, 68, 69, 70];
    if d < 16 {
      assert small[d] == if d < 10 then small[..10][d] else small[10..][d - 10];
      assert capital[d] == if d < 10 then capital[..10][d] else capital[10..][d - 10];
    }
  }

  /** Four hexadecimal digits, capital or not, mean the number with these digits. */
  lemma Hex4ValueIff(t: Text, n: nat)
    requires |t| == 4
    ensures Hex4Value(t) == Some(n) <==>
      n < 0x10000 && IsHexDigit(t[0], n / 4096) && IsHexDigit(t[1], n / 256 % 16) && IsHexDigit(t[2], n / 16 % 16) && IsHexDigit(t[3], n % 16)
  {
    hide IsHexDigit, HexValue;
    forall c, d: nat ensures HexValue(c) == Some(d) <==> IsHexDigit(c, d) {
      HexValueIff(c, d);
    }
    forall c, d: nat | IsHexDigit(c, d) ensures d < 16 {
      Below16(c, d);
    }
    Places(n);
    if Hex4Value(t) == Some(n) {
      FourPlaces(HexValue(t[0]).value, HexValue(t[1]).value, HexValue(t[2]).value, HexValue(t[3]).value);
    }
  }

  lemma Below16(c: CodePoint, d: nat)
    requires IsHexDigit(c, d)
    ensures d < 16
  {
  }

  lemma Places(n: nat)
    ensures n == 4096 * (n / 4096) + 256 * (n / 256 % 16) + 16 * (n / 16 % 16) + n % 16
  {
    assert n / 256 == (n / 16) / 16 && n / 4096 == (n / 256) / 16;
  }

  lemma FourPlaces(a: nat, b: nat, c: nat, d: nat)
    requires a < 16 && b < 16 && c < 16 && d < 16
    ensures
      var n := 4096 * a + 256 * b + 16 * c + d;
      n / 4096 == a && n / 256 % 16 == b && n / 16 % 16 == c && n % 16 == d
  {
    var n := 4096 * a + 256 * b + 16 * c + d;
    assert n / 16 == 256 * a + 16 * b + c;
    assert n / 256 == 16 * a + b;
  }

  // ---- Surrogates ------------------------------------------------------------------------------

  /** The pairs of surrogates, in their order, are the code points outside the first plane in theirs. */
  lemma JoinInOrder(high: nat, low: nat, high': nat, low': nat)
    requires 0xD800 <= high < 0xDC00 && 0xDC00 <= low < 0xE000
    requires 0xD800 <= high' < 0xDC00 && 0xDC00 <= low' < 0xE000
    ensures high < high' || (high == high' && low < low') <==> Join(high, low) < Join(high', low')
  {
  }

  lemma JoinOnto(c: CodePoint) returns (high: nat, low: nat)
    requires c >= 0x10000
    ensures 0xD800 <= high < 0xDC00 && 0xDC00 <= low < 0xE000 && Join(high, low) == c
  {
    high, low := 0xD800 + (c - 0x10000) / 1024, 0xDC00 + (c - 0x10000) % 1024;
  }

  // ---- Dicts -----------------------------------------------------------------------------------

  // No later pair has the key.
  ghost predicate LastOfKey(pairs: seq<(Text, Json)>, i: nat) {
    i < |pairs| && forall j :: i < j < |pairs| ==> pairs[j].0 != pairs[i].0
  }

  predicate HasKey(pairs: seq<(Text, Json)>, key: Text) {
    exists i :: 0 <= i < |pairs| && pairs[i].0 == key
  }

  // Wherever the key comes, the other one came already.
  ghost predicate ComesBefore(pairs: seq<(Text, Json)>, key: Text, other: Text) {
    forall j :: 0 <= j < |pairs| && pairs[j].0 == other ==> HasKey(pairs[..j], key)
  }

  /** A dict has each key once, its keys stand in the order in which they came first, and its values
      are those that came last. */
  ghost predicate MadeOf(d: seq<(Text, Json)>, pairs: seq<(Text, Json)>) {
    DistinctKeys(d) &&
    (forall p :: p in d <==> exists i: nat :: LastOfKey(pairs, i) && pairs[i] == p) &&
    KeysInOrder(d, pairs)
  }

  ghost predicate KeysInOrder(d: seq<(Text, Json)>, pairs: seq<(Text, Json)>) {
    forall i, j :: 0 <= i < j < |d| ==> ComesBefore(pairs, d[i].0, d[j].0)
  }

  lemma {:induction false} SetOldItem(d: seq<(Text, Json)>, i: nat, value: Json)
    requires DistinctKeys(d) && i < |d|
    ensures SetItem(d, d[i].0, value) == d[i := (d[i].0, value)]
  {
    if i > 0 {
      SetOldItem(d[1..], i - 1, value);
      assert d == [d[0]] + d[1..];
    }
  }

  lemma LastOfKeySnoc(pairs: seq<(Text, Json)>, p: (Text, Json), i: nat)
    ensures LastOfKey(pairs + [p], i) <==> i == |pairs| || (LastOfKey(pairs, i) && pairs[i].0 != p.0)
  {
    var all := pairs + [p];
    assert all[|pairs|] == p && forall j :: 0 <= j < |pairs| ==> all[j] == pairs[j];
  }

  lemma ComesBeforeSnoc(pairs: seq<(Text, Json)>, p: (Text, Json), key: Text, other: Text)
    requires ComesBefore(pairs, key, other) && (p.0 == other ==> HasKey(pairs, key))
    ensures ComesBefore(pairs + [p], key, other)
  {
    var all := pairs + [p];
    forall j | 0 <= j < |all| && all[j].0 == other ensures HasKey(all[..j], key) {
      assert all[..j] == pairs[..j];
      assert j == |pairs| ==> pairs[..j] == pairs;
    }
  }

  // The keys of a dict are those of the pairs.
  lemma KeysOf(d: seq<(Text, Json)>, pairs: seq<(Text, Json)>, key: Text)
    requires MadeOf(d, pairs)
    ensures HasKey(d, key) <==> HasKey(pairs, key)
  {
    if HasKey(d, key) {
      var i :| 0 <= i < |d| && d[i].0 == key;
      assert d[i] in d;
    }
    if HasKey(pairs, key) {
      var i := LastWith(pairs, key);
      assert pairs[i] in d;
    }
  }

  lemma {:induction false} LastWith(pairs: seq<(Text, Json)>, key: Text) returns (i: nat)
    requires HasKey(pairs, key)
    ensures LastOfKey(pairs, i) && pairs[i].0 == key
  {
    i := |pairs| - 1;
    if pairs[i].0 != key {
      var init := pairs[..i];
      i := LastWith(init, key);
      LastOfKeySnoc(init, pairs[|pairs| - 1], i);
      assert pairs == init + [pairs[|pairs| - 1]];
    }
  }

  // What setting an item does to the keys and to the items.
  lemma SetItemPlaces(d: seq<(Text, Json)>, p: (Text, Json))
    requires DistinctKeys(d)
    ensures
      var e := SetItem(d, p.0, p.1);
      |e| == |d| + (if HasKey(d, p.0) then 0 else 1) && (forall i :: 0 <= i < |d| ==> e[i].0 == d[i].0) &&
      (|e| > |d| ==> e[|d|].0 == p.0) && p in e && forall q :: q in e <==> q == p || (q in d && q.0 != p.0)
  {
    var e := SetItem(d, p.0, p.1);
    if k :| 0 <= k < |d| && d[k].0 == p.0 {
      SetOldItem(d, k, p.1);
      assert e[k] == p;
      forall q | q in d && q.0 != p.0 ensures q in e {
        var i :| 0 <= i < |d| && d[i] == q;
        assert e[i] == q;
      }
    } else {
      SetNewItem(d, p.0, p.1);
    }
  }

  lemma LastItems(d: seq<(Text, Json)>, e: seq<(Text, Json)>, pairs: seq<(Text, Json)>, p: (Text, Json))
    requires MadeOf(d, pairs) && forall q :: q in e <==> q == p || (q in d && q.0 != p.0)
    ensures forall q :: q in e <==> exists i: nat :: LastOfKey(pairs + [p], i) && (pairs + [p])[i] == q
  {
    hide LastOfKey, KeysInOrder;
    var all := pairs + [p];
    forall i: nat ensures (LastOfKey(pairs, i) ==> i < |pairs|) {
      InRange(pairs, i);
    }
    forall i: nat ensures LastOfKey(all, i) <==> i == |pairs| || (i < |pairs| && LastOfKey(pairs, i) && pairs[i].0 != p.0) {
      LastOfKeySnoc(pairs, p, i);
    }
    forall q | q in e ensures exists i: nat :: LastOfKey(all, i) && all[i] == q {
      if q == p {
        assert LastOfKey(all, |pairs|);
      } else {
        var i: nat :| i < |pairs| && LastOfKey(pairs, i) && pairs[i] == q;
        assert LastOfKey(all, i) && all[i] == q;
      }
    }
    forall i: nat | LastOfKey(all, i) ensures i < |all| && all[i] in e {
      assert i < |pairs| ==> LastOfKey(pairs, i) && pairs[i] in d;
    }
  }

  lemma InRange(pairs: seq<(Text, Json)>, i: nat)
    ensures LastOfKey(pairs, i) ==> i < |pairs|
  {
  }

  lemma SetItemMade(d: seq<(Text, Json)>, pairs: seq<(Text, Json)>, p: (Text, Json))
    requires MadeOf(d, pairs)
    ensures MadeOf(SetItem(d, p.0, p.1), pairs + [p])
  {
    hide LastOfKey, KeysInOrder, SetItem, HasKey;
    var e := SetItem(d, p.0, p.1);
    SetItemPlaces(d, p);
    LastItems(d, e, pairs, p);
    KeysOf(d, pairs, p.0);
    NewKeyLast(d, p.0);
    OrderKept(d, e, pairs, p);
  }

  lemma OrderKept(d: seq<(Text, Json)>, e: seq<(Text, Json)>, pairs: seq<(Text, Json)>, p: (Text, Json))
    requires MadeOf(d, pairs) && |e| == |d| + if HasKey(d, p.0) then 0 else 1
    requires (forall i :: 0 <= i < |d| ==> e[i].0 == d[i].0) && (|e| > |d| ==> e[|d|].0 == p.0)
    ensures KeysInOrder(e, pairs + [p])
  {
    hide LastOfKey, ComesBefore, HasKey, MadeOf;
    KeysOf(d, pairs, p.0);
    MadeInOrder(d, pairs);
    forall i, j | 0 <= i < j < |e| ensures ComesBefore(pairs + [p], e[i].0, e[j].0) {
      KeysOf(d, pairs, d[i].0);
      KeyAt(d, i);
      if j < |d| {
        assert ComesBefore(pairs, d[i].0, d[j].0);
      } else {
        NeverComes(pairs, d[i].0, p.0);
      }
      ComesBeforeSnoc(pairs, p, e[i].0, e[j].0);
    }
  }

  lemma MadeInOrder(d: seq<(Text, Json)>, pairs: seq<(Text, Json)>)
    requires MadeOf(d, pairs)
    ensures KeysInOrder(d, pairs)
  {
  }

  lemma KeyAt(d: seq<(Text, Json)>, i: nat)
    requires i < |d|
    ensures HasKey(d, d[i].0)
  {
  }

  lemma NewKeyLast(d: seq<(Text, Json)>, key: Text)
    ensures !HasKey(d, key) ==> forall i :: 0 <= i < |d| ==> d[i].0 != key
  {
  }

  lemma NeverComes(pairs: seq<(Text, Json)>, key: Text, other: Text)
    requires !HasKey(pairs, other)
    ensures ComesBefore(pairs, key, other)
  {
  }

  /** The dict that is built from pairs is made of them like that. */
  lemma {:induction false} DictOfPairs(pairs: seq<(Text, Json)>)
    ensures MadeOf(DictOf(pairs), pairs)
  {
    hide MadeOf;
    if pairs == [] {
      NoPairs();
    } else {
      var init, last := pairs[..|pairs| - 1], pairs[|pairs| - 1];
      DictOfPairs(init);
      SetItemMade(DictOf(init), init, last);
      assert pairs == init + [last];
    }
  }

  lemma NoPairs()
    ensures MadeOf(DictOf([]), [])
  {
  }
}
