// Arrays of strings and other values as one string with escape sequences, and back.
module ExtractInject {
  datatype Option<+T> = None | Some(value: T)

  // A string or something else.
  datatype Element<+V> = Text(text: string) | Other(value: V)

  lemma Assoc<T>(a: seq<T>, b: seq<T>, c: seq<T>)
    ensures a + b + c == a + (b + c)
  {
  }

  lemma Tail<T>(e: T, s: seq<T>)
    ensures ([e] + s)[1..] == s
  {
  }

  // ---- What an array says ------------------------------------------------------------------------

  datatype Atom<+V> = Char(c: char) | Val(value: V)

  function CharsOf<V>(s: string): seq<Atom<V>> {
    if s == "" then [] else [Char(s[0])] + CharsOf(s[1..])
  }

  // The array as characters and values one after the other.
  function Atoms<V>(arr: seq<Element<V>>): seq<Atom<V>> {
    if arr == [] then []
    else ElementAtoms(arr[0]) + Atoms(arr[1..])
  }

  function ElementAtoms<V>(e: Element<V>): seq<Atom<V>> {
    if e.Text? then CharsOf(e.text) else [Val(e.value)]
  }

  lemma AtomsOne<V>(e: Element<V>)
    ensures Atoms([e]) == ElementAtoms(e)
  {
    assert [e][1..] == [];
    assert Atoms([e][1..]) == [];
  }

  ghost predicate NoNeighbours<V>(arr: seq<Element<V>>) {
    forall i :: 0 <= i < |arr| - 1 ==> !(arr[i].Text? && arr[i + 1].Text?)
  }

  // Neighbouring strings are merged, empty ones dropped.
  ghost predicate Tidy<V>(arr: seq<Element<V>>) {
    NoNeighbours(arr) && forall i :: 0 <= i < |arr| ==> arr[i] != Text("")
  }

  lemma {:induction false} CharsConcat<V>(s: string, t: string)
    ensures CharsOf<V>(s + t) == CharsOf<V>(s) + CharsOf<V>(t)
  {
    if s == "" {
      assert s + t == t;
    } else {
      assert (s + t)[1..] == s[1..] + t;
      CharsConcat<V>(s[1..], t);
    }
  }

  lemma {:induction false} AtomsConcat<V>(a: seq<Element<V>>, b: seq<Element<V>>)
    ensures Atoms(a + b) == Atoms(a) + Atoms(b)
  {
    if a == [] {
      assert a + b == b;
    } else {
      assert (a + b)[1..] == a[1..] + b;
      AtomsConcat(a[1..], b);
    }
  }

  /** There is only one tidy array that says what an array says. */
  lemma {:induction false} TidyUnique<V>(a: seq<Element<V>>, b: seq<Element<V>>)
    requires Tidy(a) && Tidy(b) && Atoms(a) == Atoms(b)
    ensures a == b
    decreases |a|
  {
    FirstText(a);
    FirstText(b);
    if a != [] && b != [] {
      FirstText(a[1..]);
      FirstText(b[1..]);
      if a[0].Text? {
        CharsPrefix(a[0].text, Atoms(a[1..]), b[0].text, Atoms(b[1..]));
      } else {
        assert Atoms(a)[0] == Atoms(b)[0];
        assert Atoms(a)[1..] == Atoms(a[1..]) && Atoms(b)[1..] == Atoms(b[1..]);
      }
      TidyUnique(a[1..], b[1..]);
      assert a == [a[0]] + a[1..] && b == [b[0]] + b[1..];
    }
  }

  // What a tidy array starts with.
  lemma FirstText<V>(a: seq<Element<V>>)
    requires Tidy(a)
    ensures a == [] <==> Atoms(a) == []
    ensures a != [] ==> Tidy(a[1..]) && Atoms(a)[0].Char? == a[0].Text?
    ensures a != [] && a[0].Text? ==> a[0].text != "" && (|a| > 1 ==> a[1].Other?)
  {
  }

  // Characters up to what is none.
  lemma {:induction false} CharsPrefix<V>(s: string, more: seq<Atom<V>>, t: string, rest: seq<Atom<V>>)
    requires CharsOf(s) + more == CharsOf(t) + rest
    requires more == [] || more[0].Val?
    requires rest == [] || rest[0].Val?
    ensures s == t && more == rest
  {
    CharsHead(s, more);
    CharsHead(t, rest);
    if s != "" && t != "" {
      CharsPrefix(s[1..], more, t[1..], rest);
      assert s == [s[0]] + s[1..] && t == [t[0]] + t[1..];
    }
  }

  lemma CharsHead<V>(s: string, more: seq<Atom<V>>)
    ensures s == "" ==> CharsOf(s) + more == more
    ensures s != "" ==>
      var all := CharsOf(s) + more;
      all != [] && all[0] == Char(s[0]) && all[1..] == CharsOf(s[1..]) + more
  {
    if s == "" {
      assert [] + more == more;
    } else {
      var first, others: seq<Atom<V>> := [Char(s[0])], CharsOf(s[1..]);
      hide CharsOf;
      Assoc(first, others, more);
      Tail(first[0], others + more);
    }
  }

  // ---- Extracting ----------------------------------------------------------------------------------

  function Decimal(n: nat): string {
    if n < 10 then ['0' + n as char] else Decimal(n / 10) + ['0' + (n % 10) as char]
  }

  // gsub('{', '{{')
  function Doubled(s: string): string {
    if s == "" then "" else (if s[0] == '{' then "{{" else [s[0]]) + Doubled(s[1..])
  }

  // The escape sequences for atoms, of which the first value has the number n.
  function Code<V>(atoms: seq<Atom<V>>, n: nat): string {
    if atoms == [] then ""
    else AtomCode(atoms[0], n) + Code(atoms[1..], if atoms[0].Val? then n + 1 else n)
  }

  function AtomCode<V>(atom: Atom<V>, n: nat): string {
    match atom
    case Char(c) => if c == '{' then "{{" else [c]
    case Val(_) => "{" + Decimal(n) + "}"
  }

  function ValuesOf<V>(atoms: seq<Atom<V>>): seq<V> {
    if atoms == [] then []
    else (if atoms[0].Val? then [atoms[0].value] else []) + ValuesOf(atoms[1..])
  }

  lemma {:induction false} CodeConcat<V>(a: seq<Atom<V>>, b: seq<Atom<V>>, n: nat)
    ensures Code(a + b, n) == Code(a, n) + Code(b, n + |ValuesOf(a)|)
    ensures ValuesOf(a + b) == ValuesOf(a) + ValuesOf(b)
  {
    hide AtomCode;
    if a == [] {
      assert a + b == b;
    } else {
      var next := if a[0].Val? then n + 1 else n;
      var one := if a[0].Val? then [a[0].value] else [];
      assert (a + b)[1..] == a[1..] + b;
      CodeConcat(a[1..], b, next);
      assert n + |ValuesOf(a)| == next + |ValuesOf(a[1..])|;
      Assoc(AtomCode(a[0], n), Code(a[1..], next), Code(b, n + |ValuesOf(a)|));
      Assoc(one, ValuesOf(a[1..]), ValuesOf(b));
    }
  }

  lemma {:induction false} CodeOfChars<V>(s: string, n: nat)
    ensures Code(CharsOf<V>(s), n) == Doubled(s) && ValuesOf(CharsOf<V>(s)) == []
  {
    if s != "" {
      CodeOfChars<V>(s[1..], n);
    }
  }

  method ExtractValues<V>(arr: seq<Element<V>>) returns (str: string, values: seq<V>)
    ensures str == Code(Atoms(arr), 0) && values == ValuesOf(Atoms(arr))
  {
    str, values := "", [];
    assert Code(Atoms(arr[..0]), 0) == "" && ValuesOf(Atoms(arr[..0])) == [];
    hide Code, Atoms, ValuesOf, Decimal, Doubled;
    for i := 0 to |arr|
      invariant str == Code(Atoms(arr[..i]), 0) && values == ValuesOf(Atoms(arr[..i]))
    {
      ExtractStep(arr, i);
      match arr[i]
      case Text(text) => str := str + Doubled(text);
      case Other(value) =>
        values := values + [value];
        str := str + ("{" + Decimal(|values| - 1) + "}");
    }
    assert arr[..|arr|] == arr;
  }

  lemma ExtractStep<V>(arr: seq<Element<V>>, i: nat)
    requires i < |arr|
    ensures
      var before, after := Atoms(arr[..i]), Atoms(arr[..i + 1]);
      var e := arr[i];
      Code(after, 0) == Code(before, 0) + (if e.Text? then Doubled(e.text) else "{" + Decimal(|ValuesOf(before)|) + "}") &&
      ValuesOf(after) == ValuesOf(before) + if e.Text? then [] else [e.value]
  {
    var before, one := Atoms(arr[..i]), Atoms([arr[i]]);
    assert arr[..i + 1] == arr[..i] + [arr[i]];
    AtomsConcat(arr[..i], [arr[i]]);
    AtomsOne(arr[i]);
    CodeConcat(before, one, 0);
    if arr[i].Text? {
      CodeOfChars<V>(arr[i].text, |ValuesOf(before)|);
    }
  }

  // ---- Injecting -----------------------------------------------------------------------------------

  function DigitCount(s: string): (k: nat)
    ensures k <= |s|
  {
    if s != "" && '0' <= s[0] <= '9' then 1 + DigitCount(s[1..]) else 0
  }

  // to_i
  function Number(s: string): nat
    requires forall i :: 0 <= i < |s| ==> '0' <= s[i] <= '9'
  {
    if s == "" then 0 else Number(s[..|s| - 1]) * 10 + (s[|s| - 1] - '0') as nat
  }

  lemma DigitsCounted(s: string)
    ensures forall i :: 0 <= i < DigitCount(s) ==> '0' <= s[i] <= '9'
  {
  }

  // A match at the start: a doubled brace or a number in braces, and how long it is.
  datatype Escape = Brace | Numbered(n: nat)

  function MatchHere(s: string): (r: Option<(Escape, nat)>)
    ensures r.Some? ==> 2 <= r.value.1 <= |s|
  {
    if s == "" || s[0] != '{' then None
    else if |s| > 1 && s[1] == '{' then Some((Brace, 2))
    else
      var k := DigitCount(s[1..]);
      DigitsCounted(s[1..]);
      if k > 0 && k + 1 < |s| && s[k + 1] == '}' then Some((Numbered(Number(s[1..][..k])), k + 2)) else None
  }

  // One match of the scan: what stands in front of it, and the escape.
  datatype Found = Found(pre: string, esc: Escape)

  // scan: each match starts where the one before it ended, and goes as little way as it
  // can to an escape. What is left behind the last match is dropped.
  function Scan(s: string): seq<Found>
    decreases |s|
  {
    match MatchHere(s)
    case Some((esc, k)) => [Found("", esc)] + Scan(s[k..])
    case None =>
      if s == "" then []
      else
        var rest := Scan(s[1..]);
        if rest == [] then [] else [Found([s[0]] + rest[0].pre, rest[0].esc)] + rest[1..]
  }

  // The elements for the matches; a number that no value has stands for nil.
  function Pieces<V>(found: seq<Found>, values: seq<V>, nil: V): (r: seq<Element<V>>)
    ensures |r| == 3 * |found|
  {
    if found == [] then []
    else
      FoundPieces(found[0], values, nil) + Pieces(found[1..], values, nil)
  }

  function FoundPieces<V>(found: Found, values: seq<V>, nil: V): (r: seq<Element<V>>)
    ensures |r| == 3
  {
    [Text(found.pre)] +
    match found.esc
    case Brace => [Text("{"), Text("")]
    case Numbered(n) => [Text(""), Other(if n < |values| then values[n] else nil)]
  }

  // gsub('{{', '{')
  function Halved(s: string): string {
    if |s| < 2 then s
    else if s[0] == '{' && s[1] == '{' then "{" + Halved(s[2..])
    else [s[0]] + Halved(s[1..])
  }

  function NotEmpty<V>(arr: seq<Element<V>>): seq<Element<V>> {
    if arr == [] then []
    else (if arr[0] == Text("") then [] else [arr[0]]) + NotEmpty(arr[1..])
  }

  lemma {:induction false} NotEmptyTidy<V>(arr: seq<Element<V>>)
    requires NoNeighbours(arr)
    ensures Tidy(NotEmpty(arr))
    ensures arr != [] && arr[0].Other? && NotEmpty(arr) != [] ==> NotEmpty(arr)[0].Other?
  {
    if arr != [] {
      NotEmptyTidy(arr[1..]);
    }
  }

  lemma {:induction false} NotEmptyAtoms<V>(arr: seq<Element<V>>)
    ensures Atoms(NotEmpty(arr)) == Atoms(arr)
  {
    if arr != [] {
      var kept := NotEmpty(arr[1..]);
      NotEmptyAtoms(arr[1..]);
      AtomsConcat([arr[0]], kept);
      AtomsOne(arr[0]);
      assert ElementAtoms<V>(Text("")) + Atoms(arr[1..]) == Atoms(arr[1..]);
      assert [] + kept == kept;
    }
  }

  /** Concatenates strings that are neighbours and leaves the rest as it is. */
  method MergeAdjacentStrings<V>(arr: seq<Element<V>>) returns (merged: seq<Element<V>>)
    ensures NoNeighbours(merged) && Atoms(merged) == Atoms(arr)
  {
    hide Atoms, NoNeighbours;
    if |arr| < 2 {
      FewElements(arr);
      return arr;
    }
    merged := [];
    FewElements<V>([]);
    assert arr[..0] == [];
    for i := 0 to |arr|
      invariant NoNeighbours(merged) && Atoms(merged) == Atoms(arr[..i])
    {
      var e := arr[i];
      AtomsConcat(arr[..i], [e]);
      assert arr[..i + 1] == arr[..i] + [e];
      if e.Text? && merged != [] && merged[|merged| - 1].Text? {
        var last := merged[|merged| - 1].text;
        MergedAtoms(merged, e.text);
        TextReplaced(merged, e.text);
        merged := merged[|merged| - 1 := Text(last + e.text)];
      } else {
        AtomsConcat(merged, [e]);
        ElementAdded(merged, e);
        merged := merged + [e];
      }
    }
    assert arr[..|arr|] == arr;
  }

  lemma FewElements<V>(arr: seq<Element<V>>)
    requires |arr| < 2
    ensures NoNeighbours(arr)
  {
  }

  lemma ElementAdded<V>(merged: seq<Element<V>>, e: Element<V>)
    requires NoNeighbours(merged) && !(e.Text? && merged != [] && merged[|merged| - 1].Text?)
    ensures NoNeighbours(merged + [e])
  {
  }

  lemma TextReplaced<V>(merged: seq<Element<V>>, text: string)
    requires NoNeighbours(merged) && merged != [] && merged[|merged| - 1].Text?
    ensures NoNeighbours(merged[|merged| - 1 := Text(merged[|merged| - 1].text + text)])
  {
  }

  lemma MergedAtoms<V>(merged: seq<Element<V>>, text: string)
    requires merged != [] && merged[|merged| - 1].Text?
    ensures Atoms(merged[|merged| - 1 := Text(merged[|merged| - 1].text + text)]) == Atoms(merged) + Atoms([Text(text)])
  {
    var front, last := merged[..|merged| - 1], merged[|merged| - 1].text;
    assert merged == front + [Text(last)];
    assert merged[|merged| - 1 := Text(last + text)] == front + [Text(last + text)];
    CharsConcat<V>(last, text);
    AtomsConcat(front, [Text(last + text)]);
    AtomsConcat(front, [Text(last)]);
    AtomsOne<V>(Text(last + text));
    AtomsOne<V>(Text(last));
    AtomsOne<V>(Text(text));
    hide Atoms, CharsOf;
    Assoc(Atoms(front), CharsOf(last), CharsOf(text));
  }

  // There is an escape at the end at the latest.
  lemma {:induction false} ScanFinds(str: string)
    ensures Scan(str + "{{") != []
  {
    if MatchHere(str + "{{").None? {
      assert str != "";
      assert (str + "{{")[1..] == str[1..] + "{{";
      ScanFinds(str[1..]);
    }
  }

  /** Undoes ExtractValues. */
  method InjectValues<V>(str: string, values: seq<V>, nil: V) returns (arr: seq<Element<V>>)
    ensures values == [] ==> arr == [Text(Halved(str))]
    ensures values != [] ==> Tidy(arr) && Scan(str + "{{") != []
    ensures values != [] ==>
      var pieces := Pieces(Scan(str + "{{"), values, nil);
      Atoms(arr) == Atoms(pieces[|pieces| - 2 := Text("")])
  {
    if values == [] {
      return [Text(Halved(str))];
    }
    // One more brace, so that what is behind the last escape is found, too
    ScanFinds(str);
    var result := Pieces(Scan(str + "{{"), values, nil);
    result := result[|result| - 2 := Text("")];
    var merged := MergeAdjacentStrings(result);
    NotEmptyTidy(merged);
    NotEmptyAtoms(merged);
    arr := NotEmpty(merged);
  }

  // ---- There and back --------------------------------------------------------------------------------

  lemma {:induction false} NumberOfDecimal(n: nat)
    ensures Decimal(n) != "" && forall i :: 0 <= i < |Decimal(n)| ==> '0' <= Decimal(n)[i] <= '9'
    ensures Number(Decimal(n)) == n
  {
    if n < 10 {
      assert Decimal(n)[..0] == "";
    } else {
      NumberOfDecimal(n / 10);
      assert Decimal(n)[..|Decimal(n)| - 1] == Decimal(n / 10);
    }
  }

  lemma {:induction false} DigitsUpTo(digits: string, more: string)
    requires forall i :: 0 <= i < |digits| ==> '0' <= digits[i] <= '9'
    requires more != "" && !('0' <= more[0] <= '9')
    ensures DigitCount(digits + more) == |digits|
  {
    if digits == "" {
      assert digits + more == more;
    } else {
      assert (digits + more)[1..] == digits[1..] + more;
      DigitsUpTo(digits[1..], more);
    }
  }

  lemma MatchNumbered(n: nat, more: string)
    ensures
      var s := "{" + Decimal(n) + "}" + more;
      MatchHere(s) == Some((Numbered(n), |Decimal(n)| + 2)) && s[|Decimal(n)| + 2..] == more
  {
    hide Decimal, Number, DigitCount;
    NumberOfDecimal(n);
    DigitsUpTo(Decimal(n), "}" + more);
    BraceShape(Decimal(n), more);
  }

  lemma BraceShape(d: string, more: string)
    ensures
      var s := "{" + d + "}" + more;
      |s| == |d| + 2 + |more| && s[0] == '{' && s[1..] == d + ("}" + more) && s[1..][..|d|] == d &&
      s[|d| + 1] == '}' && s[|d| + 2..] == more && (d != "" ==> s[1] == d[0])
  {
  }

  // The found pieces say what the code says, and a brace at the end.
  lemma {:induction false} ScanCode<V>(atoms: seq<Atom<V>>, before: seq<V>, nil: V)
    ensures
      var found := Scan(Code(atoms, |before|) + "{{");
      found != [] && found[|found| - 1].esc == Brace &&
      Atoms(Pieces(found, before + ValuesOf(atoms), nil)) == atoms + [Char('{')]
  {
    hide Atoms, Pieces, CharsOf, Scan, Decimal, MatchHere;
    var s := Code(atoms, |before|) + "{{";
    var values := before + ValuesOf(atoms);
    if atoms == [] {
      assert s == "{{";
      ScanEnd(values, nil);
    } else if atoms[0].Val? {
      var v := atoms[0].value;
      var code := Code(atoms[1..], |before| + 1);
      Assoc("{" + Decimal(|before|) + "}", code, "{{");
      Assoc(before, [v], ValuesOf(atoms[1..]));
      ScanCode(atoms[1..], before + [v], nil);
      ScanNumber(|before|, code + "{{", values, nil);
      assert values[|before|] == v;
      Assoc([Val(v)], atoms[1..], [Char('{')]);
      assert atoms == [Val(v)] + atoms[1..];
    } else {
      var code := Code(atoms[1..], |before|);
      assert values == before + ValuesOf(atoms[1..]);
      ScanCode(atoms[1..], before, nil);
      ScanChar(atoms[0].c, code + "{{", values, nil);
      Assoc(AtomCode(atoms[0], |before|), code, "{{");
      Assoc([atoms[0]], atoms[1..], [Char('{')]);
      assert atoms == [atoms[0]] + atoms[1..];
    }
  }

  // A doubled brace in front.
  lemma ScanBrace<V>(more: string, values: seq<V>, nil: V)
    ensures
      var found := Scan("{{" + more);
      found != [] && found == [Found("", Brace)] + Scan(more) &&
      Atoms(Pieces(found, values, nil)) == [Char('{')] + Atoms(Pieces(Scan(more), values, nil))
  {
    assert ("{{" + more)[2..] == more;
    assert CharsOf<V>("") + [Char('{')] == [Char('{')];
    PiecesHead("", Brace, Scan(more), values, nil);
    if more == "" {
      assert Scan(more) == [];
    }
  }

  lemma ScanEnd<V>(values: seq<V>, nil: V)
    ensures Scan("{{") == [Found("", Brace)] && Atoms(Pieces(Scan("{{"), values, nil)) == [Char('{')]
  {
    ScanBrace("", values, nil);
    assert "{{" + "" == "{{" && Scan("") == [];
  }

  // The number of a value in front.
  lemma ScanNumber<V>(n: nat, more: string, values: seq<V>, nil: V)
    ensures
      var found := Scan("{" + Decimal(n) + "}" + more);
      found == [Found("", Numbered(n))] + Scan(more) &&
      Atoms(Pieces(found, values, nil)) == [Val(if n < |values| then values[n] else nil)] + Atoms(Pieces(Scan(more), values, nil))
  {
    MatchNumbered(n, more);
    PiecesHead("", Numbered(n), Scan(more), values, nil);
    assert CharsOf<V>("") + EscapeAtoms(Numbered(n), values, nil) == EscapeAtoms(Numbered(n), values, nil);
  }

  // One more character in front.
  lemma ScanChar<V>(c: char, more: string, values: seq<V>, nil: V)
    requires Scan(more) != []
    ensures
      var found := Scan(AtomCode<V>(Char(c), 0) + more);
      found != [] && found[|found| - 1].esc == Scan(more)[|Scan(more)| - 1].esc &&
      Atoms(Pieces(found, values, nil)) == [Char(c)] + Atoms(Pieces(Scan(more), values, nil))
  {
    if c == '{' {
      ScanBrace(more, values, nil);
    } else {
      var first, others := Scan(more)[0], Scan(more)[1..];
      assert ([c] + more)[1..] == more;
      assert MatchHere([c] + more).None?;
      assert Scan([c] + more) == [Found([c] + first.pre, first.esc)] + others;
      assert Scan(more) == [Found(first.pre, first.esc)] + others;
      hide Scan, Pieces, Atoms, MatchHere, EscapeAtoms;
      PiecesHead(first.pre, first.esc, others, values, nil);
      PiecesHead([c] + first.pre, first.esc, others, values, nil);
      CharsConcat<V>([c], first.pre);
      assert CharsOf<V>([c]) == [Char(c)];
      hide CharsOf;
      var esc, rest := EscapeAtoms(first.esc, values, nil), Atoms(Pieces(others, values, nil));
      Assoc([Char(c)], CharsOf(first.pre), esc);
      Assoc([Char(c)], CharsOf(first.pre) + esc, rest);
    }
  }

  function EscapeAtoms<V>(esc: Escape, values: seq<V>, nil: V): seq<Atom<V>> {
    match esc
    case Brace => [Char('{')]
    case Numbered(n) => [Val(if n < |values| then values[n] else nil)]
  }

  lemma PiecesHead<V>(pre: string, esc: Escape, found: seq<Found>, values: seq<V>, nil: V)
    ensures Atoms(Pieces([Found(pre, esc)] + found, values, nil)) ==
      CharsOf(pre) + EscapeAtoms(esc, values, nil) + Atoms(Pieces(found, values, nil))
  {
    assert ([Found(pre, esc)] + found)[1..] == found;
    AtomsConcat(FoundPieces(Found(pre, esc), values, nil), Pieces(found, values, nil));
    FoundAtoms(pre, esc, values, nil);
  }

  lemma FoundAtoms<V>(pre: string, esc: Escape, values: seq<V>, nil: V)
    ensures Atoms(FoundPieces(Found(pre, esc), values, nil)) == CharsOf(pre) + EscapeAtoms(esc, values, nil)
  {
    var pieces := FoundPieces(Found(pre, esc), values, nil);
    AtomsConcat([pieces[0], pieces[1]], [pieces[2]]);
    AtomsConcat([pieces[0]], [pieces[1]]);
    AtomsOne(pieces[0]);
    AtomsOne(pieces[1]);
    AtomsOne(pieces[2]);
    assert pieces == [pieces[0], pieces[1]] + [pieces[2]] && [pieces[0], pieces[1]] == [pieces[0]] + [pieces[1]];
    assert CharsOf<V>("") == [] && CharsOf<V>("{") == [Char('{')] + CharsOf<V>("");
  }

  // The last escape is the brace that was put at the end.
  lemma LastPieceDropped<V>(atoms: seq<Atom<V>>, values: seq<V>, nil: V)
    requires values == ValuesOf(atoms)
    ensures
      var found := Scan(Code(atoms, 0) + "{{");
      var pieces := Pieces(found, values, nil);
      found != [] && Atoms(pieces[|pieces| - 2 := Text("")]) == atoms
  {
    hide Scan, Code, Pieces, Atoms;
    ScanCode(atoms, [], nil);
    assert [] + values == values;
    var found := Scan(Code(atoms, 0) + "{{");
    DropBrace(found, values, nil);
    assert (atoms + [Char('{')])[..|atoms|] == atoms;
  }

  lemma {:induction false} DropBrace<V>(found: seq<Found>, values: seq<V>, nil: V)
    requires found != [] && found[|found| - 1].esc == Brace
    ensures
      var pieces := Pieces(found, values, nil);
      Atoms(pieces) == Atoms(pieces[|pieces| - 2 := Text("")]) + [Char('{')]
  {
    hide Atoms, Pieces, FoundPieces;
    if |found| > 1 {
      DropBrace(found[1..], values, nil);
      PiecesSplit(found, values, nil);
      DropBehind(FoundPieces(found[0], values, nil), Pieces(found[1..], values, nil));
    } else {
      DropOnly(found[0].pre, values, nil);
      assert found == [Found(found[0].pre, Brace)];
    }
  }

  lemma PiecesSplit<V>(found: seq<Found>, values: seq<V>, nil: V)
    requires found != []
    ensures Pieces(found, values, nil) == FoundPieces(found[0], values, nil) + Pieces(found[1..], values, nil)
  {
  }

  lemma DropBehind<V>(first: seq<Element<V>>, rest: seq<Element<V>>)
    requires |rest| >= 2 && Atoms(rest) == Atoms(rest[|rest| - 2 := Text("")]) + [Char('{')]
    ensures Atoms(first + rest) == Atoms((first + rest)[|first + rest| - 2 := Text("")]) + [Char('{')]
  {
    hide Atoms;
    var dropped := rest[|rest| - 2 := Text("")];
    UpdateBehind(first, rest, Text(""));
    AtomsConcat(first, rest);
    AtomsConcat(first, dropped);
    Assoc(Atoms(first), Atoms(dropped), [Char('{')]);
  }

  lemma UpdateBehind<T>(a: seq<T>, b: seq<T>, e: T)
    requires |b| >= 2
    ensures (a + b)[|a + b| - 2 := e] == a + b[|b| - 2 := e]
  {
  }

  lemma DropOnly<V>(pre: string, values: seq<V>, nil: V)
    ensures
      var pieces := Pieces([Found(pre, Brace)], values, nil);
      Atoms(pieces) == Atoms(pieces[|pieces| - 2 := Text("")]) + [Char('{')]
  {
    var pieces := Pieces([Found(pre, Brace)], values, nil);
    PiecesHead(pre, Brace, [], values, nil);
    assert [Found(pre, Brace)] + [] == [Found(pre, Brace)];
    assert Atoms(Pieces([], values, nil)) == [];
    assert pieces[|pieces| - 2 := Text("")] == [Text(pre)] + [Text(""), Text("")];
    AtomsConcat<V>([Text(pre)], [Text(""), Text("")]);
    AtomsOne<V>(Text(pre));
    assert Atoms<V>([Text(""), Text("")]) == [];
  }

  // All the strings of an array in one.
  function Joined<V>(arr: seq<Element<V>>): string {
    if arr == [] then "" else (if arr[0].Text? then arr[0].text else "") + Joined(arr[1..])
  }

  lemma {:induction false} HalvedDoubled(s: string)
    ensures Halved(Doubled(s)) == s
  {
    if s != "" {
      HalvedDoubled(s[1..]);
      assert s == [s[0]] + s[1..];
      if s[0] == '{' {
        assert Doubled(s)[2..] == Doubled(s[1..]);
      } else {
        assert Doubled(s)[1..] == Doubled(s[1..]);
        if |Doubled(s)| < 2 {
          assert Doubled(s[1..]) == "";
        }
      }
    }
  }

  lemma {:induction false} OnlyStrings<V>(arr: seq<Element<V>>)
    requires forall i :: 0 <= i < |arr| ==> arr[i].Text?
    ensures Atoms(arr) == CharsOf(Joined(arr))
  {
    if arr != [] {
      OnlyStrings(arr[1..]);
      CharsConcat<V>(arr[0].text, Joined(arr[1..]));
    }
  }

  lemma {:induction false} HasValues<V>(arr: seq<Element<V>>)
    ensures ValuesOf(Atoms(arr)) == [] <==> forall i :: 0 <= i < |arr| ==> arr[i].Text?
  {
    if arr != [] {
      HasValues(arr[1..]);
      assert arr == [arr[0]] + arr[1..];
      var first := Atoms([arr[0]]);
      AtomsConcat([arr[0]], arr[1..]);
      CodeConcat(first, Atoms(arr[1..]), 0);
      AtomsOne(arr[0]);
      if arr[0].Text? {
        CodeOfChars<V>(arr[0].text, 0);
      }
    }
  }

  /** Extracting the values of any array and injecting them gives the tidy array that says
      the same, whatever its strings hold; an array of nothing but strings comes back as
      one string, which may be empty. */
  method ExtractAndInject<V>(arr: seq<Element<V>>, nil: V) returns (back: seq<Element<V>>)
    ensures (exists i :: 0 <= i < |arr| && arr[i].Other?) ==> Tidy(back) && Atoms(back) == Atoms(arr)
    ensures (forall i :: 0 <= i < |arr| ==> arr[i].Text?) ==> back == [Text(Joined(arr))]
  {
    var str, values := ExtractValues(arr);
    back := InjectValues(str, values, nil);
    HasValues(arr);
    if values == [] {
      OnlyStrings(arr);
      CodeOfChars<V>(Joined(arr), 0);
      HalvedDoubled(Joined(arr));
    } else {
      LastPieceDropped(Atoms(arr), values, nil);
    }
  }
}
