// The lines of an indented Sass document: how deep each one stands, and where the
// document's indentation is at fault.
module IndentedLines {
  datatype Result<+T, +E> = Ok(value: T) | Err(error: E)

  // A line without its indentation; tabs says how deep it stands.
  datatype Line = Line(text: string, tabs: nat, index: nat, offset: nat)

  datatype Fault = AtBeginning | TabsAndSpaces | Inconsistent | InconsistentComment

  datatype SyntaxError = SyntaxError(fault: Fault, line: nat)

  // \s
  predicate IsSpace(c: char) {
    c == ' ' || c == '\t' || c == '\n' || c == '\r' || c == '\U{0B}' || c == '\U{0C}'
  }

  // line[/^\s*/]
  function Indent(line: string): (r: string)
    ensures r <= line
    ensures forall c :: c in r ==> IsSpace(c)
    ensures |r| < |line| ==> !IsSpace(line[|r|])
  {
    if line != "" && IsSpace(line[0]) then [line[0]] + Indent(line[1..]) else ""
  }

  function RStrip(line: string): (r: string)
    ensures r <= line
    ensures r != "" ==> !IsSpace(r[|r| - 1])
  {
    if line != "" && IsSpace(line[|line| - 1]) then RStrip(line[..|line| - 1]) else line
  }

  function Strip(line: string): string {
    RStrip(line[|Indent(line)|..])
  }

  lemma {:induction false} IndentIs(space: string, text: string)
    requires forall c :: c in space ==> IsSpace(c)
    requires text != "" && !IsSpace(text[0])
    ensures Indent(space + text) == space
  {
    if space == "" {
      assert space + text == text;
    } else {
      assert (space + text)[1..] == space[1..] + text;
      IndentIs(space[1..], text);
    }
  }

  function Repeat(unit: string, n: nat): string {
    if n == 0 then "" else unit + Repeat(unit, n - 1)
  }

  // scan(unit).size: how often unit is found, each time behind the time before.
  function ScanCount(s: string, unit: string): nat
    requires unit != ""
    decreases |s|
  {
    if |s| < |unit| then 0
    else if unit <= s then 1 + ScanCount(s[|unit|..], unit)
    else ScanCount(s[1..], unit)
  }

  lemma {:induction false} ScanRepeat(unit: string, n: nat)
    requires unit != ""
    ensures ScanCount(Repeat(unit, n), unit) == n
  {
    if n > 0 {
      assert Repeat(unit, n)[|unit|..] == Repeat(unit, n - 1);
      ScanRepeat(unit, n - 1);
    }
  }

  // ---- What a well indented document is ---------------------------------------------------------

  // A line that is not blank, and its number.
  datatype Numbered = Numbered(line: string, index: nat)

  function NotBlank(lines: seq<string>, first: nat): (r: seq<Numbered>)
    ensures forall k :: 0 <= k < |r| ==> Strip(r[k].line) != ""
  {
    if lines == [] then []
    else (if Strip(lines[0]) == "" then [] else [Numbered(lines[0], first)]) + NotBlank(lines[1..], first + 1)
  }

  // The first indentation that there is.
  function Unit(nb: seq<Numbered>): string {
    if nb == [] then ""
    else if Indent(nb[0].line) != "" then Indent(nb[0].line)
    else Unit(nb[1..])
  }

  predicate Mixed(unit: string) {
    ' ' in unit && '\t' in unit
  }

  ghost predicate Deep(unit: string, line: string, tabs: nat) {
    Indent(line) == Repeat(unit, tabs)
  }

  ghost predicate Multiple(unit: string, line: string) {
    exists tabs: nat :: Deep(unit, line, tabs)
  }

  /** The first line is not indented, and the others are by the first indentation any
      number of times. */
  ghost predicate WellIndented(nb: seq<Numbered>) {
    (nb != [] ==> Indent(nb[0].line) == "") && !Mixed(Unit(nb)) &&
    forall k :: 0 <= k < |nb| ==> Multiple(Unit(nb), nb[k].line)
  }

  // The line for nb[k]; its text is its own unless it is a comment.
  ghost predicate LineOf(unit: string, n: Numbered, text: string, line: Line) {
    line.text == text && line.index == n.index && line.offset == |Indent(n.line)| &&
    Deep(unit, n.line, line.tabs) && (Indent(n.line) == "" ==> line.tabs == 0)
  }

  ghost predicate LinesOf(nb: seq<Numbered>, texts: seq<string>, lines: seq<Line>) {
    |lines| == |texts| == |nb| && forall k :: 0 <= k < |nb| ==> LineOf(Unit(nb), nb[k], texts[k], lines[k])
  }

  function OwnTexts(nb: seq<Numbered>): (r: seq<string>)
    ensures |r| == |nb| && forall k :: 0 <= k < |nb| ==> r[k] == Strip(nb[k].line)
  {
    seq(|nb|, k requires 0 <= k < |nb| => Strip(nb[k].line))
  }

  // The error is at the first line with which the document is not well indented.
  ghost predicate FirstFault(nb: seq<Numbered>, e: SyntaxError) {
    exists k ::
      0 <= k < |nb| && e.line == nb[k].index && WellIndented(nb[..k]) && !WellIndented(nb[..k + 1]) &&
      e.fault == if k == 0 then AtBeginning else if Mixed(Unit(nb[..k + 1])) then TabsAndSpaces else Inconsistent
  }

  lemma {:induction false} UnitMore(nb: seq<Numbered>, n: Numbered)
    ensures Unit(nb + [n]) == if Unit(nb) != "" then Unit(nb) else Indent(n.line)
  {
    if nb != [] {
      assert (nb + [n])[1..] == nb[1..] + [n];
      UnitMore(nb[1..], n);
    } else {
      assert (nb + [n])[1..] == [];
    }
  }

  // All lines without indentation.
  lemma {:induction false} NoUnit(nb: seq<Numbered>)
    ensures Unit(nb) == "" <==> forall k :: 0 <= k < |nb| ==> Indent(nb[k].line) == ""
  {
    if nb != [] {
      NoUnit(nb[1..]);
      assert nb == [nb[0]] + nb[1..];
    }
  }

  lemma {:induction false} NotBlankMore(lines: seq<string>, line: string, first: nat)
    ensures NotBlank(lines + [line], first) ==
      NotBlank(lines, first) + if Strip(line) == "" then [] else [Numbered(line, first + |lines|)]
  {
    hide Strip;
    if lines == [] {
      assert ([] + [line])[1..] == [];
    } else {
      assert (lines + [line])[1..] == lines[1..] + [line];
      NotBlankMore(lines[1..], line, first + 1);
    }
  }

  // A document is well indented as far as it goes.
  lemma WellIndentedPrefix(nb: seq<Numbered>, more: seq<Numbered>)
    requires WellIndented(nb + more)
    ensures WellIndented(nb)
    decreases |more|
  {
    if more == [] {
      assert nb + more == nb;
    } else {
      var n := more[0];
      assert nb + more == (nb + [n]) + more[1..];
      WellIndentedPrefix(nb + [n], more[1..]);
      UnitMore(nb, n);
      NoUnit(nb);
      forall k | 0 <= k < |nb| ensures Multiple(Unit(nb), nb[k].line) {
        assert (nb + [n])[k] == nb[k];
        if Unit(nb) == "" {
          assert Deep(Unit(nb), nb[k].line, 0);
        }
      }
    }
  }

  /* What one more line does to the lines so far. */
  lemma OneMore(nb: seq<Numbered>, texts: seq<string>, lines: seq<Line>, n: Numbered, line: Line)
    requires WellIndented(nb) && LinesOf(nb, texts, lines) && Strip(n.line) != ""
    requires Unit(nb + [n]) == (if Unit(nb) != "" then Unit(nb) else Indent(n.line))
    requires nb == [] ==> Indent(n.line) == ""
    requires !Mixed(Unit(nb + [n])) && LineOf(Unit(nb + [n]), n, line.text, line)
    ensures WellIndented(nb + [n]) && LinesOf(nb + [n], texts + [line.text], lines + [line])
  {
    hide Strip, Indent, Mixed;
    NoUnit(nb);
    var all, unit := nb + [n], Unit(nb + [n]);
    forall k | 0 <= k < |nb| ensures LineOf(unit, nb[k], texts[k], lines[k]) {
    }
    forall k | 0 <= k < |all| ensures LineOf(unit, all[k], (texts + [line.text])[k], (lines + [line])[k]) && Multiple(unit, all[k].line) {
      assert Deep(unit, all[k].line, (lines + [line])[k].tabs);
    }
  }

  // A line with another indentation.
  lemma OneWrong(nb: seq<Numbered>, n: Numbered)
    requires WellIndented(nb)
    requires
      (nb == [] && Indent(n.line) != "") || (Unit(nb) == "" && Mixed(Indent(n.line))) ||
      (Unit(nb) != "" && Repeat(Unit(nb), ScanCount(Indent(n.line), Unit(nb))) != Indent(n.line))
    ensures !WellIndented(nb + [n])
  {
    var all := nb + [n];
    UnitMore(nb, n);
    assert all[|nb|] == n;
    if Unit(nb) != "" && Multiple(Unit(nb), n.line) {
      var tabs: nat :| Deep(Unit(nb), n.line, tabs);
      ScanRepeat(Unit(nb), tabs);
    }
  }

  // The document up to a line.
  lemma NextLine(lines: seq<string>, i: nat, first: nat, nb: seq<Numbered>)
    requires i < |lines| && nb == NotBlank(lines[..i], first)
    ensures
      var n := Numbered(lines[i], first + i);
      NotBlank(lines[..i + 1], first) == (if Strip(lines[i]) == "" then nb else nb + [n]) &&
      Unit(nb + [n]) == (if Unit(nb) != "" then Unit(nb) else Indent(n.line)) &&
      (Unit(nb) == "" <==> forall k :: 0 <= k < |nb| ==> Indent(nb[k].line) == "")
  {
    hide Strip, Indent, NotBlank, Unit;
    NextNotBlank(lines, i, first);
    UnitMore(nb, Numbered(lines[i], first + i));
    NoUnit(nb);
  }

  lemma NextNotBlank(lines: seq<string>, i: nat, first: nat)
    requires i < |lines|
    ensures
      var nb := NotBlank(lines[..i], first);
      NotBlank(lines[..i + 1], first) == if Strip(lines[i]) == "" then nb else nb + [Numbered(lines[i], first + i)]
  {
    hide Strip, NotBlank;
    assert lines[..i + 1] == lines[..i] + [lines[i]];
    NotBlankMore(lines[..i], lines[i], first);
  }

  lemma {:induction false} NotBlankConcat(a: seq<string>, b: seq<string>, first: nat)
    ensures NotBlank(a + b, first) == NotBlank(a, first) + NotBlank(b, first + |a|)
  {
    hide Strip;
    if a == [] {
      assert a + b == b;
    } else {
      assert (a + b)[1..] == a[1..] + b;
      NotBlankConcat(a[1..], b, first + 1);
    }
  }

  // The first line that is not well indented makes the document's fault.
  lemma FaultAt(lines: seq<string>, i: nat, first: nat, nb: seq<Numbered>, fault: Fault)
    requires i < |lines| && nb == NotBlank(lines[..i], first) && Strip(lines[i]) != ""
    requires WellIndented(nb) && !WellIndented(nb + [Numbered(lines[i], first + i)])
    requires fault ==
      if nb == [] then AtBeginning
      else if Mixed(Unit(nb + [Numbered(lines[i], first + i)])) then TabsAndSpaces else Inconsistent
    ensures !WellIndented(NotBlank(lines, first)) && FirstFault(NotBlank(lines, first), SyntaxError(fault, first + i))
  {
    hide WellIndented, NotBlank, Mixed, Unit, Strip, Indent;
    NextLine(lines, i, first, nb);
    var upTo := nb + [Numbered(lines[i], first + i)];
    var behind := NotBlank(lines[i + 1..], first + i + 1);
    assert lines == lines[..i + 1] + lines[i + 1..];
    NotBlankConcat(lines[..i + 1], lines[i + 1..], first);
    var all := upTo + behind;
    if WellIndented(all) {
      WellIndentedPrefix(upTo, behind);
    }
    assert all[|nb|] == Numbered(lines[i], first + i) && all[..|nb|] == nb && all[..|nb| + 1] == upTo;
  }

  lemma WellIndentedUnit(nb: seq<Numbered>)
    requires WellIndented(nb)
    ensures !Mixed(Unit(nb)) && !Mixed("") && (|nb| == 0 ==> Unit(nb) == "")
  {
  }

  lemma NoTabs(unit: string, indent: string, tabs: nat)
    requires if unit == "" then tabs == 0 && indent == "" else tabs == ScanCount(indent, unit) && Repeat(unit, tabs) == indent
    ensures Repeat(unit, tabs) == indent && (indent == "" ==> tabs == 0)
  {
  }

  // Only another indentation than the first can be inconsistent.
  lemma WrongCount(nb: seq<Numbered>, n: Numbered)
    requires WellIndented(nb)
    requires
      var unit := Unit(nb + [n]);
      unit == (if Unit(nb) != "" then Unit(nb) else Indent(n.line)) &&
      unit != "" && Repeat(unit, ScanCount(Indent(n.line), unit)) != Indent(n.line)
    ensures !WellIndented(nb + [n]) && nb != []
  {
    var unit := Unit(nb + [n]);
    assert Repeat(unit, 1) == unit + Repeat(unit, 0) == unit;
    ScanRepeat(unit, 1);
    OneWrong(nb, n);
  }
}
