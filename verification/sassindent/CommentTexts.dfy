// What tabulate makes of the lines of a document: which ones stand for themselves, which ones belong to
// a comment, and what the text of a comment is.
module CommentTexts {
  import opened IndentedLines
  import opened DocumentLines

  // The lines below a comment as they are, blank ones as nothing, each behind a line break.
  function Below(lines: seq<string>): string {
    if lines == [] then ""
    else
      var last := lines[|lines| - 1];
      Below(lines[..|lines| - 1]) + "\n" + if Strip(last) == "" then "" else last
  }

  // Its indentation is longer and starts with that of the other line.
  predicate Inside(outer: string, line: string) {
    Indent(outer) < Indent(line)
  }

  // Line i stands for itself, and those behind it up to j, if they are not blank, are in its comment.
  ghost predicate Stands(lines: seq<string>, i: int, j: int, text: string) {
    0 <= i < j <= |lines| && Strip(lines[i]) != "" &&
    text == Strip(lines[i]) + (if IsComment(Strip(lines[i])) then Below(lines[i + 1..j]) else "") &&
    forall m :: i < m < j && Strip(lines[m]) != "" ==> IsComment(Strip(lines[i])) && Inside(lines[i], lines[m])
  }

  // Where the lines of nb[k] end.
  function EndOf(nb: seq<Numbered>, k: nat, first: nat, size: nat): int {
    if k + 1 < |nb| then nb[k + 1].index - first else size
  }

  ghost predicate Part(lines: seq<string>, first: nat, nb: seq<Numbered>, texts: seq<string>, k: nat) {
    k < |nb| == |texts| && first <= nb[k].index < first + |lines| && nb[k].line == lines[nb[k].index - first] &&
    Stands(lines, nb[k].index - first, EndOf(nb, k, first, |lines|), texts[k]) &&
    (k + 1 < |nb| && IsComment(Strip(nb[k].line)) ==> !Inside(nb[k].line, nb[k + 1].line))
  }

  ghost predicate BlankBefore(lines: seq<string>, first: nat, nb: seq<Numbered>) {
    forall m :: 0 <= m < |lines| && (nb != [] ==> first + m < nb[0].index) ==> Strip(lines[m]) == ""
  }

  /** Every line that is not blank stands for itself or is in the comment of the last line that does, and
      it is in that comment exactly when it is indented deeper. */
  ghost predicate Parts(lines: seq<string>, first: nat, nb: seq<Numbered>, texts: seq<string>) {
    |nb| == |texts| && BlankBefore(lines, first, nb) && forall k :: 0 <= k < |nb| ==> Part(lines, first, nb, texts, k)
  }

  // ---- One more line -----------------------------------------------------------------------------------

  lemma BelowMore(lines: seq<string>, line: string)
    ensures Below(lines + [line]) == Below(lines) + "\n" + if Strip(line) == "" then "" else line
  {
    assert (lines + [line])[..|lines|] == lines;
  }

  // The line is taken by the last part.
  lemma StandsMore(lines: seq<string>, line: string, i: int, text: string)
    requires Stands(lines, i, |lines|, text)
    requires Strip(line) != "" ==> IsComment(Strip(lines[i])) && Inside(lines[i], line)
    ensures
      var more := if !IsComment(Strip(lines[i])) then "" else "\n" + if Strip(line) == "" then "" else line;
      Stands(lines + [line], i, |lines| + 1, text + more)
  {
    hide Strip, Indent, IsComment, Below, Inside;
    var all := lines + [line];
    EmptyEnd(text);
    BelowRest(lines, line, i + 1);
    Joined(Strip(lines[i]), Below(lines[i + 1..|lines|]), "\n" + if Strip(line) == "" then "" else line);
  }

  lemma BelowRest(lines: seq<string>, line: string, i: nat)
    requires i <= |lines|
    ensures
      Below((lines + [line])[i..|lines| + 1]) == Below(lines[i..|lines|]) + ("\n" + if Strip(line) == "" then "" else line)
  {
    hide Strip, Below;
    BelowMore(lines[i..], line);
    assert (lines + [line])[i..|lines| + 1] == lines[i..] + [line] && lines[i..|lines|] == lines[i..];
    Joined(Below(lines[i..]), "\n", if Strip(line) == "" then "" else line);
  }

  lemma Joined(a: string, b: string, c: string)
    ensures a + b + c == a + (b + c)
  {
  }

  lemma EmptyEnd(text: string)
    ensures text + "" == text
  {
  }

  // Parts that ended before stay.
  lemma StandsStill(lines: seq<string>, line: string, i: int, j: int, text: string)
    requires Stands(lines, i, j, text)
    ensures Stands(lines + [line], i, j, text)
  {
    hide Strip, IsComment, Indent;
    assert (lines + [line])[i + 1..j] == lines[i + 1..j];
  }

  // A comment's text starts like its line.
  lemma StillComment(lines: seq<string>, first: nat, nb: seq<Numbered>, texts: seq<string>, k: nat)
    requires Part(lines, first, nb, texts, k)
    ensures IsComment(texts[k]) <==> IsComment(Strip(nb[k].line))
  {
    hide Strip, Indent;
  }

  lemma {:induction false} SpacePrefix(space: string, line: string)
    requires (forall c :: c in space ==> IsSpace(c)) && space <= line
    ensures space <= Indent(line)
  {
    if space != "" {
      assert space[0] in space && line[0] == space[0];
      assert space[1..] <= line[1..];
      SpacePrefix(space[1..], line[1..]);
      assert space == [space[0]] + space[1..];
    }
  }

  lemma {:induction false} UnitSpaces(nb: seq<Numbered>)
    ensures forall c :: c in Unit(nb) ==> IsSpace(c)
  {
    if nb != [] {
      UnitSpaces(nb[1..]);
    }
  }

  lemma {:induction false} RepeatSpaces(unit: string, n: nat)
    requires forall c :: c in unit ==> IsSpace(c)
    ensures forall c :: c in Repeat(unit, n) ==> IsSpace(c)
  {
    if n > 0 {
      RepeatSpaces(unit, n - 1);
    }
  }

  // The last line's indentation, as its depth gives it.
  lemma LastIndent(nb: seq<Numbered>)
    requires WellIndented(nb) && nb != []
    ensures Repeat(Unit(nb), LastTabs(nb)) == Indent(nb[|nb| - 1].line)
  {
    hide Indent, Strip;
    var last := nb[|nb| - 1];
    assert Multiple(Unit(nb), last.line);
    var tabs: nat :| Deep(Unit(nb), last.line, tabs);
    if Unit(nb) == "" {
      EmptyRepeat(tabs);
    } else {
      ScanRepeat(Unit(nb), tabs);
    }
  }

  lemma {:induction false} EmptyRepeat(n: nat)
    ensures Repeat("", n) == ""
  {
    if n > 0 {
      EmptyRepeat(n - 1);
    }
  }

  lemma DeeperInside(nb: seq<Numbered>, line: string)
    requires WellIndented(nb) && nb != []
    ensures Deeper(nb, line) <==> Inside(nb[|nb| - 1].line, line)
  {
    hide WellIndented, Unit, LastTabs, Strip;
    LastIndent(nb);
    var outer := Repeat(Unit(nb), LastTabs(nb));
    UnitSpaces(nb);
    RepeatSpaces(Unit(nb), LastTabs(nb));
    if Deeper(nb, line) {
      LongerPrefix(outer, line);
    }
    if outer < Indent(line) {
      assert Indent(line)[|outer|] in Indent(line);
      assert line[|outer|] == Indent(line)[|outer|];
    }
  }

  lemma LongerPrefix(outer: string, line: string)
    requires outer <= line && |outer| < |line| && IsSpace(line[|outer|]) && forall c :: c in outer ==> IsSpace(c)
    ensures outer < Indent(line)
  {
    hide Indent;
    var longer := line[..|outer| + 1];
    assert longer[..|outer|] == outer && longer == outer + [line[|outer|]];
    SpacePrefix(longer, line);
    assert Indent(line)[..|outer|] == longer[..|outer|];
  }

  // ---- Reading -----------------------------------------------------------------------------------------

  lemma TakenParts(lines: seq<string>, first: nat, nb: seq<Numbered>, texts: seq<string>, line: string)
    requires Parts(lines, first, nb, texts)
    requires nb == [] ==> Strip(line) == ""
    requires nb != [] && Strip(line) != "" ==> IsComment(Strip(nb[|nb| - 1].line)) && Inside(nb[|nb| - 1].line, line)
    ensures nb == [] ==> Parts(lines + [line], first, nb, texts)
    ensures nb != [] ==>
      var last := |nb| - 1;
      var more := if !IsComment(Strip(nb[last].line)) then "" else "\n" + if Strip(line) == "" then "" else line;
      Parts(lines + [line], first, nb, texts[last := texts[last] + more])
  {
    hide Strip, Indent, IsComment, Stands, Inside;
    var all := lines + [line];
    if nb != [] {
      var last := |nb| - 1;
      assert Part(lines, first, nb, texts, last);
      var more := if !IsComment(Strip(nb[last].line)) then "" else "\n" + if Strip(line) == "" then "" else line;
      StandsMore(lines, line, nb[last].index - first, texts[last]);
      var texts' := texts[last := texts[last] + more];
      forall k | 0 <= k < |nb| ensures Part(all, first, nb, texts', k) {
        assert Part(lines, first, nb, texts, k);
        if k < last {
          StandsStill(lines, line, nb[k].index - first, EndOf(nb, k, first, |lines|), texts[k]);
        }
      }
      assert Part(lines, first, nb, texts, 0);
    }
  }

  lemma NewPart(lines: seq<string>, first: nat, nb: seq<Numbered>, texts: seq<string>, line: string)
    requires Parts(lines, first, nb, texts) && Strip(line) != ""
    requires nb != [] && IsComment(Strip(nb[|nb| - 1].line)) ==> !Inside(nb[|nb| - 1].line, line)
    ensures Parts(lines + [line], first, nb + [Numbered(line, first + |lines|)], texts + [Strip(line)])
  {
    hide Strip, Indent, IsComment, Stands, Inside;
    var all, n := lines + [line], Numbered(line, first + |lines|);
    NewStands(lines, line);
    forall k | 0 <= k <= |nb| ensures Part(all, first, nb + [n], texts + [Strip(line)], k) {
      if k < |nb| {
        assert Part(lines, first, nb, texts, k);
        StandsStill(lines, line, nb[k].index - first, EndOf(nb, k, first, |lines|), texts[k]);
      }
    }
    if nb != [] {
      assert Part(lines, first, nb, texts, 0);
    }
  }

  lemma NewStands(lines: seq<string>, line: string)
    requires Strip(line) != ""
    ensures Stands(lines + [line], |lines|, |lines| + 1, Strip(line))
  {
    hide Strip, Indent;
    var all := lines + [line];
    assert all[|lines| + 1..|lines| + 1] == [] && Below([]) == "";
    assert Strip(line) + "" == Strip(line);
  }

  // What the last line of the reading says of the next one.
  lemma ReadParts(lines: seq<string>, first: nat, rd: Reading, line: string)
    requires Good(rd) && Parts(lines, first, rd.nb, rd.texts)
    requires Good(ReadLine(rd, line, first + |lines|))
    ensures var rd' := ReadLine(rd, line, first + |lines|); Parts(lines + [line], first, rd'.nb, rd'.texts)
  {
    hide Strip, Indent, IsComment, Parts, Inside, WellIndented, Unit, Deeper;
    SameSize(lines, first, rd.nb, rd.texts);
    if rd.nb == [] {
      if Strip(line) == "" {
        TakenParts(lines, first, rd.nb, rd.texts, line);
      } else {
        NewPart(lines, first, rd.nb, rd.texts, line);
      }
    } else {
      LastPart(lines, first, rd.nb, rd.texts);
      DeeperInside(rd.nb, line);
      var last := |rd.nb| - 1;
      if Strip(line) == "" || (InComment(rd) && Deeper(rd.nb, line)) {
        TakenParts(lines, first, rd.nb, rd.texts, line);
        NothingMore(rd.texts, last);
      } else {
        NewPart(lines, first, rd.nb, rd.texts, line);
      }
    }
  }

  lemma NothingMore(texts: seq<string>, i: nat)
    requires i < |texts|
    ensures texts[i := texts[i] + ""] == texts && "\n" + "" == "\n"
  {
    assert texts[i] + "" == texts[i];
  }

  lemma SameSize(lines: seq<string>, first: nat, nb: seq<Numbered>, texts: seq<string>)
    requires Parts(lines, first, nb, texts)
    ensures |nb| == |texts|
  {
  }

  lemma LastPart(lines: seq<string>, first: nat, nb: seq<Numbered>, texts: seq<string>)
    requires Parts(lines, first, nb, texts) && nb != []
    ensures IsComment(texts[|nb| - 1]) <==> IsComment(Strip(nb[|nb| - 1].line))
  {
    hide Strip, IsComment, Stands, Inside;
    assert Part(lines, first, nb, texts, |nb| - 1);
    StillComment(lines, first, nb, texts, |nb| - 1);
  }

  /** The lines and texts of a document that is accepted are its parts. */
  lemma {:induction false} GoodParts(lines: seq<string>, first: nat)
    requires Good(Read(lines, first))
    ensures Parts(lines, first, Read(lines, first).nb, Read(lines, first).texts)
    decreases |lines|
  {
    hide Good, ReadLine, Parts;
    if lines == [] {
      NoParts(first);
    } else {
      var n := |lines| - 1;
      ReadOn(lines, n, first);
      GoodParts(lines[..n], first);
      ReadParts(lines[..n], first, Read(lines[..n], first), lines[n]);
      assert lines == lines[..n] + [lines[n]];
    }
  }

  lemma NoParts(first: nat)
    ensures Parts([], first, [], [])
  {
  }
}
