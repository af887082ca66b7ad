// tabulate: the lines of a document, where a comment takes the deeper lines behind it for its
// own.
module DocumentLines {
  import opened IndentedLines

  predicate IsComment(text: string) {
    |text| > 1 && text[0] == '/' && (text[1] == '*' || text[1] == '/')
  }

  // ---- A document with its comments ---------------------------------------------------------------

  /* What was read so far: the lines that stand for themselves, with their texts, and the
     indentation that the lines of a comment must have ("" when there is none). A comment's
     line with another one makes the document bad. */
  datatype Reading = Reading(nb: seq<Numbered>, texts: seq<string>, commentTab: string, bad: bool)

  predicate InComment(rd: Reading) {
    rd.texts != [] && IsComment(rd.texts[|rd.texts| - 1])
  }

  // How deep the last line stands.
  function LastTabs(nb: seq<Numbered>): nat {
    if nb == [] || Unit(nb) == "" then 0 else ScanCount(Indent(nb[|nb| - 1].line), Unit(nb))
  }

  // Deeper than the comment, by one whitespace character at least.
  predicate Deeper(nb: seq<Numbered>, line: string) {
    var outer := Repeat(Unit(nb), LastTabs(nb));
    outer <= line && |outer| < |line| && IsSpace(line[|outer|])
  }

  function Appended(rd: Reading, text: string): Reading
    requires rd.texts != []
  {
    rd.(texts := rd.texts[|rd.texts| - 1 := rd.texts[|rd.texts| - 1] + text])
  }

  function ReadLine(rd: Reading, line: string, index: nat): Reading {
    if rd.bad then rd
    else if Strip(line) == "" then
      if InComment(rd) then Appended(rd, "\n") else rd
    else
      var indent := Indent(line);
      var tab := if rd.commentTab == "" then indent else rd.commentTab;
      if InComment(rd) && Deeper(rd.nb, line) then
        if tab <= line then Appended(rd, "\n" + line).(commentTab := tab) else rd.(bad := true)
      else
        Reading(rd.nb + [Numbered(line, index)], rd.texts + [Strip(line)],
          if Unit(rd.nb) == "" && indent == "" then rd.commentTab else "", false)
  }

  function Read(lines: seq<string>, first: nat): Reading {
    if lines == [] then Reading([], [], "", false)
    else
      var n := |lines| - 1;
      ReadLine(Read(lines[..n], first), lines[n], first + n)
  }

  ghost predicate Good(rd: Reading) {
    !rd.bad && WellIndented(rd.nb)
  }

  // The first line with which the document is not good.
  ghost predicate FaultIn(lines: seq<string>, first: nat, e: SyntaxError) {
    exists i: nat :: FaultOf(lines, first, i, e)
  }

  ghost predicate FaultOf(lines: seq<string>, first: nat, i: nat, e: SyntaxError) {
    i < |lines| && Good(Read(lines[..i], first)) && !Good(Read(lines[..i + 1], first)) && e.line == first + i &&
    e.fault == FaultKind(Read(lines[..i], first), Read(lines[..i + 1], first))
  }

  function FaultKind(before: Reading, after: Reading): Fault {
    if after.bad then InconsistentComment
    else if before.nb == [] then AtBeginning
    else if Mixed(Unit(after.nb)) then TabsAndSpaces
    else Inconsistent
  }

  // Reading on mends nothing.
  lemma ReadLineGood(rd: Reading, line: string, index: nat)
    ensures Good(ReadLine(rd, line, index)) ==> Good(rd)
  {
    hide WellIndented, Strip, Deeper, InComment, Unit;
    var after, n := ReadLine(rd, line, index), Numbered(line, index);
    if Good(after) && after.nb == rd.nb + [n] {
      WellIndentedPrefix(rd.nb, [n]);
    }
  }

  lemma {:induction false} ReadOn(lines: seq<string>, i: nat, first: nat)
    requires i <= |lines|
    ensures Good(Read(lines, first)) ==> Good(Read(lines[..i], first))
    decreases |lines|
  {
    hide Good, ReadLine;
    if i == |lines| {
      assert lines[..i] == lines;
    } else {
      var n := |lines| - 1;
      assert lines[..n][..i] == lines[..i];
      ReadOn(lines[..n], i, first);
      ReadLineGood(Read(lines[..n], first), lines[n], first + n);
    }
  }

  lemma ReadNext(lines: seq<string>, i: nat, first: nat)
    requires i < |lines|
    ensures Read(lines[..i + 1], first) == ReadLine(Read(lines[..i], first), lines[i], first + i)
  {
    hide ReadLine;
    assert lines[..i + 1][..i] == lines[..i];
  }

  lemma FaultFound(lines: seq<string>, i: nat, first: nat, e: SyntaxError)
    requires FaultOf(lines, first, i, e)
    ensures !Good(Read(lines, first)) && FaultIn(lines, first, e)
  {
    ReadOn(lines, i + 1, first);
  }

  // ---- A document without comments ------------------------------------------------------------------

  predicate NoComments(lines: seq<string>) {
    forall line :: line in lines ==> !IsComment(Strip(line))
  }

  /** Without comments the lines that stand for themselves are those that are not blank. */
  lemma {:induction false} ReadNoComments(lines: seq<string>, first: nat)
    requires NoComments(lines)
    ensures
      var nb := NotBlank(lines, first);
      Read(lines, first) == Reading(nb, OwnTexts(nb), "", false)
    decreases |lines|
  {
    hide Strip, Indent, NotBlank, IsComment, Deeper, Unit;
    if lines != [] {
      var n := |lines| - 1;
      assert lines == lines[..n] + [lines[n]];
      ReadNoComments(lines[..n], first);
      NotBlankMore(lines[..n], lines[n], first);
      NotInComment(lines[..n], first);
      OwnTextsMore(NotBlank(lines[..n], first), Numbered(lines[n], first + n));
    } else {
      NothingRead(first);
    }
  }

  lemma NothingRead(first: nat)
    ensures NotBlank([], first) == [] && OwnTexts([]) == []
  {
  }

  lemma OwnTextsMore(nb: seq<Numbered>, n: Numbered)
    ensures OwnTexts(nb + [n]) == OwnTexts(nb) + [Strip(n.line)]
  {
  }

  lemma NotInComment(lines: seq<string>, first: nat)
    requires NoComments(lines)
    ensures var nb := NotBlank(lines, first); nb != [] ==> !IsComment(OwnTexts(nb)[|nb| - 1])
  {
    hide Strip;
    var nb := NotBlank(lines, first);
    NotBlankIn(lines, first);
    if nb != [] {
      assert nb[|nb| - 1].line in lines;
    }
  }

  lemma {:induction false} NotBlankIn(lines: seq<string>, first: nat)
    ensures forall k :: 0 <= k < |NotBlank(lines, first)| ==> NotBlank(lines, first)[k].line in lines
  {
    hide Strip;
    if lines != [] {
      NotBlankIn(lines[1..], first + 1);
    }
  }

  lemma NoCommentsFault(lines: seq<string>, first: nat, e: SyntaxError)
    requires NoComments(lines) && FaultIn(lines, first, e)
    ensures FirstFault(NotBlank(lines, first), e)
  {
    hide Strip, WellIndented, FirstFault, Mixed, Unit, Read, NotBlank, IsComment;
    var i: nat :| FaultOf(lines, first, i, e);
    ReadNoComments(lines[..i], first);
    ReadNoComments(lines[..i + 1], first);
    NextLine(lines, i, first, NotBlank(lines[..i], first));
    FaultAt(lines, i, first, NotBlank(lines[..i], first), e.fault);
  }

  // ---- Comments before the first indentation ----------------------------------------------------

  predicate Indented(line: string) {
    Strip(line) != "" && Indent(line) != ""
  }

  // Line h is the last one at the margin in front of line i.
  ghost predicate Heads(lines: seq<string>, h: nat, i: nat) {
    h < i <= |lines| && Strip(lines[h]) != "" && Indent(lines[h]) == "" &&
    forall k :: h < k < i ==> Strip(lines[k]) == "" || Indent(lines[k]) != ""
  }

  // The last line at the margin in front of line i is a comment.
  ghost predicate UnderComment(lines: seq<string>, i: nat) {
    exists h: nat :: Heads(lines, h, i) && IsComment(Strip(lines[h]))
  }

  // Until here no line that stands for itself is indented.
  ghost predicate OnlyCommentsIndented(lines: seq<string>) {
    forall i :: 0 <= i < |lines| && Indented(lines[i]) ==> UnderComment(lines, i)
  }

  ghost predicate FirstIndented(lines: seq<string>, i: nat) {
    i < |lines| && Indented(lines[i]) && forall k :: 0 <= k < i ==> !Indented(lines[k])
  }

  // The first n lines, as far as they are indented, start with the indentation of the first one.
  ghost predicate ShareFirst(lines: seq<string>, n: nat) {
    n <= |lines| && forall i: nat :: FirstIndented(lines, i) ==> StartLike(lines, i, n)
  }

  ghost predicate StartLike(lines: seq<string>, i: nat, n: nat) {
    i < |lines| && n <= |lines| && forall j :: i <= j < n && Indented(lines[j]) ==> Indent(lines[i]) <= lines[j]
  }

  // What is known when the first n lines share their indentation.
  ghost predicate CommentsRead(lines: seq<string>, n: nat, rd: Reading) {
    n <= |lines| && Good(rd) && Unit(rd.nb) == "" &&
    ((forall k :: 0 <= k < n ==> !Indented(lines[k])) ==> rd.commentTab == "") &&
    (forall i: nat :: i < n && FirstIndented(lines, i) ==> rd.commentTab == Indent(lines[i])) &&
    (UnderComment(lines, n) ==> InComment(rd))
  }

  // A line without indentation while no line is indented, and a deeper one of a comment.
  lemma ReadHead(rd: Reading, line: string, index: nat)
    requires Good(rd) && Unit(rd.nb) == "" && Indent(line) == "" && Strip(line) != ""
    ensures ReadLine(rd, line, index) == Reading(rd.nb + [Numbered(line, index)], rd.texts + [Strip(line)], rd.commentTab, false)
    ensures Good(ReadLine(rd, line, index)) && Unit(ReadLine(rd, line, index).nb) == ""
  {
    var n := Numbered(line, index);
    NotDeeper(rd, line);
    UnitMore(rd.nb, n);
    NoUnit(rd.nb + [n]);
    forall k | 0 <= k < |rd.nb + [n]| ensures Multiple("", (rd.nb + [n])[k].line) {
      assert Deep("", (rd.nb + [n])[k].line, 0);
    }
  }

  lemma ReadPart(rd: Reading, line: string, index: nat)
    requires Good(rd) && Unit(rd.nb) == "" && Indent(line) != "" && Strip(line) != "" && InComment(rd)
    ensures
      var tab := if rd.commentTab == "" then Indent(line) else rd.commentTab;
      ReadLine(rd, line, index) ==
        if tab <= line then Appended(rd, "\n" + line).(commentTab := tab) else rd.(bad := true)
  {
    NotDeeper(rd, line);
  }

  // What a comment takes leaves it one.
  lemma StillComment(rd: Reading, text: string, tab: string)
    requires InComment(rd)
    ensures InComment(Appended(rd, text)) && InComment(Appended(rd, text).(commentTab := tab))
  {
  }

  lemma HeadComment(rd: Reading, text: string)
    requires rd.texts != [] && rd.texts[|rd.texts| - 1] == text
    ensures InComment(rd) == IsComment(text)
  {
  }

  // One more line that is at the margin or blank heads itself or has the heads there were.
  lemma NextHead(lines: seq<string>, n: nat)
    requires n < |lines|
    ensures Strip(lines[n]) == "" || Indent(lines[n]) != "" ==> (UnderComment(lines, n + 1) ==> UnderComment(lines, n))
    ensures Strip(lines[n]) != "" && Indent(lines[n]) == "" ==> (UnderComment(lines, n + 1) ==> IsComment(Strip(lines[n])))
  {
    hide Strip, Indent, IsComment;
    if UnderComment(lines, n + 1) {
      var h: nat :| Heads(lines, h, n + 1) && IsComment(Strip(lines[h]));
      if h < n {
        assert Heads(lines, h, n);
      }
    }
  }

  lemma SharedLine(lines: seq<string>, n: nat, rd: Reading, index: nat)
    requires n < |lines| && CommentsRead(lines, n, rd) && ShareFirst(lines, n)
    requires Indented(lines[n]) ==> UnderComment(lines, n)
    ensures
      if ShareFirst(lines, n + 1) then CommentsRead(lines, n + 1, ReadLine(rd, lines[n], index))
      else !Good(ReadLine(rd, lines[n], index))
  {
    hide IsComment, UnderComment, Good, Unit, InComment, ShareFirst, ReadLine, CommentsRead, Strip, Indent;
    if Indented(lines[n]) {
      SharedPart(lines, n, rd, index);
    } else {
      NextHead(lines, n);
      SharedHead(lines, n, rd, index);
      SameIndents(lines, n, rd, ReadLine(rd, lines[n], index));
    }
  }

  lemma SharedHead(lines: seq<string>, n: nat, rd: Reading, index: nat)
    requires n < |lines| && CommentsRead(lines, n, rd) && !Indented(lines[n])
    ensures
      var rd' := ReadLine(rd, lines[n], index);
      Good(rd') && Unit(rd'.nb) == "" && rd'.commentTab == rd.commentTab && (UnderComment(lines, n + 1) ==> InComment(rd'))
  {
    hide IsComment, UnderComment, WellIndented, Unit, InComment, Strip, Indent, FirstIndented, Deeper;
    var line := lines[n];
    NextHead(lines, n);
    if Strip(line) == "" {
      if InComment(rd) {
        StillComment(rd, "\n", "");
      }
    } else {
      hide ReadLine;
      ReadHead(rd, line, index);
      HeadComment(ReadLine(rd, line, index), Strip(line));
    }
  }

  lemma SameIndents(lines: seq<string>, n: nat, rd: Reading, rd': Reading)
    requires n < |lines| && CommentsRead(lines, n, rd) && ShareFirst(lines, n) && !Indented(lines[n])
    requires Good(rd') && Unit(rd'.nb) == "" && rd'.commentTab == rd.commentTab && (UnderComment(lines, n + 1) ==> InComment(rd'))
    ensures CommentsRead(lines, n + 1, rd') && ShareFirst(lines, n + 1)
  {
    hide Indented, UnderComment, Good, Unit, InComment, Indent, FirstIndented;
    forall i: nat | i < n + 1 && FirstIndented(lines, i) ensures i < n {
      FirstNotEmpty(lines, i);
    }
    if forall k :: 0 <= k < n + 1 ==> !Indented(lines[k]) {
      assert forall k :: 0 <= k < n ==> !Indented(lines[k]);
    }
  }

  lemma SharedPart(lines: seq<string>, n: nat, rd: Reading, index: nat)
    requires n < |lines| && CommentsRead(lines, n, rd) && ShareFirst(lines, n)
    requires Indented(lines[n]) && UnderComment(lines, n)
    ensures
      if ShareFirst(lines, n + 1) then CommentsRead(lines, n + 1, ReadLine(rd, lines[n], index))
      else !Good(ReadLine(rd, lines[n], index))
  {
    hide IsComment, UnderComment, WellIndented, Unit, InComment, ShareFirst, ReadLine, Strip, Indent, FirstIndented;
    var tab := if rd.commentTab == "" then Indent(lines[n]) else rd.commentTab;
    ReadPart(rd, lines[n], index);
    StillComment(rd, "\n" + lines[n], tab);
    SharedTab(lines, n, rd, tab);
  }

  // The indentation that a line of a comment must start with.
  lemma SharedTab(lines: seq<string>, n: nat, rd: Reading, tab: string)
    requires n < |lines| && CommentsRead(lines, n, rd) && ShareFirst(lines, n) && Indented(lines[n])
    requires tab == if rd.commentTab == "" then Indent(lines[n]) else rd.commentTab
    ensures ShareFirst(lines, n + 1) <==> tab <= lines[n]
    ensures forall i: nat :: i <= n && FirstIndented(lines, i) ==> tab == Indent(lines[i])
  {
    hide Strip, Indent, IsComment, UnderComment, Good, Unit, InComment, ShareFirst;
    var i := FirstOne(lines, n);
    ShareMore(lines, n, i);
    if i == n {
      IndentPrefix(lines[n]);
    } else {
      FirstNotEmpty(lines, i);
    }
  }

  lemma FirstNotEmpty(lines: seq<string>, i: nat)
    requires FirstIndented(lines, i)
    ensures Indented(lines[i]) && Indent(lines[i]) != ""
  {
  }

  lemma FirstTwice(lines: seq<string>, i: nat, l: nat)
    requires FirstIndented(lines, i) && FirstIndented(lines, l)
    ensures i == l
  {
  }

  lemma ShareMore(lines: seq<string>, n: nat, i: nat)
    requires n < |lines| && Indented(lines[n]) && FirstIndented(lines, i) && i <= n
    ensures ShareFirst(lines, n + 1) <==> ShareFirst(lines, n) && Indent(lines[i]) <= lines[n]
    ensures forall l: nat :: FirstIndented(lines, l) ==> l == i
  {
    hide Indented, Indent, FirstIndented, StartLike;
    forall l: nat | FirstIndented(lines, l) ensures l == i {
      FirstTwice(lines, i, l);
    }
    LikeMore(lines, i, n);
  }

  lemma LikeMore(lines: seq<string>, i: nat, n: nat)
    requires i <= n < |lines| && Indented(lines[n])
    ensures StartLike(lines, i, n + 1) <==> StartLike(lines, i, n) && Indent(lines[i]) <= lines[n]
  {
    hide Indented, Indent;
  }

  lemma ShareLess(lines: seq<string>, n: nat)
    requires ShareFirst(lines, n + 1)
    ensures ShareFirst(lines, n)
  {
    hide Indented, Indent, FirstIndented;
  }

  lemma FirstOne(lines: seq<string>, k: nat) returns (i: nat)
    requires k < |lines| && Indented(lines[k])
    ensures i <= k && FirstIndented(lines, i)
  {
    i := 0;
    while !Indented(lines[i])
      invariant i <= k && forall l :: 0 <= l < i ==> !Indented(lines[l])
      decreases k - i
    {
      i := i + 1;
    }
  }

  lemma {:induction false} CommentsUpTo(lines: seq<string>, n: nat, first: nat)
    requires n <= |lines| && OnlyCommentsIndented(lines)
    ensures if ShareFirst(lines, n) then CommentsRead(lines, n, Read(lines[..n], first)) else !Good(Read(lines[..n], first))
  {
    hide ReadLine, Good, Indented, UnderComment, CommentsRead, ShareFirst, Read;
    if n == 0 {
      NothingGood(lines, first);
    } else {
      CommentsUpTo(lines, n - 1, first);
      ReadNext(lines, n - 1, first);
      var rd := Read(lines[..n - 1], first);
      if ShareFirst(lines, n - 1) {
        SharedLine(lines, n - 1, rd, first + n - 1);
      } else {
        ReadLineGood(rd, lines[n - 1], first + n - 1);
        if ShareFirst(lines, n) {
          ShareLess(lines, n - 1);
        }
      }
    }
  }

  lemma NothingGood(lines: seq<string>, first: nat)
    ensures ShareFirst(lines, 0) && CommentsRead(lines, 0, Read(lines[..0], first))
  {
    assert Unit([]) == "" && WellIndented([]);
  }

  /** While only the lines of comments are indented, a document is good exactly when every one
      of them starts with the indentation of the first, whichever comment it is of. */
  lemma CommentsShare(lines: seq<string>, first: nat)
    requires OnlyCommentsIndented(lines)
    ensures Good(Read(lines, first)) <==> ShareFirst(lines, |lines|)
  {
    hide Good, Read, ShareFirst, OnlyCommentsIndented;
    CommentsUpTo(lines, |lines|, first);
    assert lines[..|lines|] == lines;
  }

  lemma Pieces(space: string, text: string)
    requires (forall c :: c in space ==> IsSpace(c)) && text != "" && !IsSpace(text[0]) && !IsSpace(text[|text| - 1])
    ensures Indent(space + text) == space && Strip(space + text) == text
  {
    IndentIs(space, text);
    assert (space + text)[|space|..] == text;
  }

  // A comment at the margin and one more line of it.
  ghost predicate CommentPair(head: string, part: string, space: string) {
    Indent(head) == "" && Strip(head) != "" && IsComment(Strip(head)) &&
    space != "" && Indent(part) == space && Strip(part) != ""
  }

  lemma OnePair(a: string, x: string, s: string, first: nat)
    requires CommentPair(a, x, s)
    ensures Good(Read([a, x], first))
  {
    hide Strip, Indent, IsComment, Read, Good;
    assert Heads([a, x], 0, 1);
    CommentsShare([a, x], first);
  }

  /** Two comments that are fine alone: the indentation of the first one's second line is asked
      of the other's. */
  lemma FirstCommentStays(a: string, x: string, s: string, b: string, y: string, r: string, first: nat)
    requires CommentPair(a, x, s) && CommentPair(b, y, r)
    ensures Good(Read([a, x], first)) && Good(Read([b, y], first))
    ensures Good(Read([a, x, b, y], first)) <==> s <= y
  {
    hide Strip, Indent, IsComment, Read, Good;
    OnePair(a, x, s, first);
    OnePair(b, y, r, first);
    var lines := [a, x, b, y];
    assert Heads(lines, 0, 1) && Heads(lines, 2, 3);
    CommentsShare(lines, first);
    assert FirstIndented(lines, 1) && Indented(lines[3]);
    IndentPrefix(x);
  }

  lemma IndentPrefix(line: string)
    ensures Indent(line) <= line
  {
  }

  /** A comment with a line four spaces deep, and then one with a line two spaces deep. */
  lemma TwoComments()
    ensures Good(Read(["// a", "    " + "x"], 1)) && Good(Read(["// b", "  " + "y"], 1))
    ensures !Good(Read(["// a", "    " + "x", "// b", "  " + "y"], 1))
  {
    CommentTexts("// a", "    ", "x");
    CommentTexts("// b", "  ", "y");
    assert ("  " + "y")[2] == 'y' && "    "[2] == ' ';
    FirstCommentStays("// a", "    " + "x", "    ", "// b", "  " + "y", "  ", 1);
  }

  lemma CommentTexts(head: string, space: string, text: string)
    requires IsComment(head) && !IsSpace(head[|head| - 1]) && space != "" && forall e :: e in space ==> IsSpace(e)
    requires text != "" && !IsSpace(text[0]) && !IsSpace(text[|text| - 1])
    ensures CommentPair(head, space + text, space)
  {
    Pieces("", head);
    assert "" + head == head;
    Pieces(space, text);
  }

  // ---- tabulate ---------------------------------------------------------------------------------------

  datatype Try = NotComment | Taken | Wrong

  // try_comment: does the last line, a comment, take this one?
  function TryComment(line: string, tabulated: seq<Line>, outer: string, commentTab: string): Try {
    if tabulated == [] || !IsComment(tabulated[|tabulated| - 1].text) then NotComment
    else if !(outer <= line && |outer| < |line| && IsSpace(line[|outer|])) then NotComment
    else if commentTab <= line then Taken
    else Wrong
  }

  function LastText(tabulated: seq<Line>, text: string): seq<Line>
    requires tabulated != []
  {
    var last := tabulated[|tabulated| - 1];
    tabulated[|tabulated| - 1 := last.(text := last.text + text)]
  }

  // The state of the loop.
  ghost predicate SoFar(rd: Reading, tabulated: seq<Line>, tabStr: string, first: bool, commentTab: string) {
    Good(rd) && LinesOf(rd.nb, rd.texts, tabulated) && tabStr == Unit(rd.nb) && first == (rd.nb == []) &&
    commentTab == rd.commentTab
  }

  lemma LastLine(rd: Reading, tabulated: seq<Line>)
    requires Good(rd) && LinesOf(rd.nb, rd.texts, tabulated)
    ensures |tabulated| == |rd.texts| == |rd.nb|
    ensures tabulated != [] ==>
      var last := tabulated[|tabulated| - 1];
      last.text == rd.texts[|rd.texts| - 1] && last.tabs == LastTabs(rd.nb) && InComment(rd) == IsComment(last.text)
  {
    if tabulated != [] {
      var n := |rd.nb| - 1;
      assert LineOf(Unit(rd.nb), rd.nb[n], rd.texts[n], tabulated[n]);
      NoUnit(rd.nb);
      if Unit(rd.nb) != "" {
        ScanRepeat(Unit(rd.nb), tabulated[n].tabs);
      }
    }
  }

  lemma TakenLines(rd: Reading, tabulated: seq<Line>, text: string)
    requires Good(rd) && LinesOf(rd.nb, rd.texts, tabulated) && tabulated != []
    ensures Good(Appended(rd, text)) && LinesOf(rd.nb, Appended(rd, text).texts, LastText(tabulated, text))
  {
    hide Strip, Indent, WellIndented;
    var texts, lines := Appended(rd, text).texts, LastText(tabulated, text);
    forall k | 0 <= k < |rd.nb| ensures LineOf(Unit(rd.nb), rd.nb[k], texts[k], lines[k]) {
      assert LineOf(Unit(rd.nb), rd.nb[k], rd.texts[k], tabulated[k]);
    }
  }

  // A line that is not indented is not deeper, and the first ones have nothing to be deeper than.
  lemma NotDeeper(rd: Reading, line: string)
    requires Good(rd)
    ensures Indent(line) == "" ==> !Deeper(rd.nb, line)
    ensures Unit(rd.nb) == "" && Indent(line) != "" ==> Deeper(rd.nb, line)
    ensures Unit(rd.nb) == "" ==> Repeat(Unit(rd.nb), LastTabs(rd.nb)) == ""
  {
    var outer := Repeat(Unit(rd.nb), LastTabs(rd.nb));
    if outer != "" {
      var n := LastTabs(rd.nb);
      assert outer == Unit(rd.nb) + Repeat(Unit(rd.nb), n - 1);
      UnitSpace(rd.nb);
      assert outer[0] == Unit(rd.nb)[0];
    }
  }

  lemma {:induction false} UnitSpace(nb: seq<Numbered>)
    ensures Unit(nb) != "" ==> IsSpace(Unit(nb)[0])
  {
    if nb != [] && Indent(nb[0].line) == "" {
      UnitSpace(nb[1..]);
    } else if nb != [] {
      assert Indent(nb[0].line)[0] in Indent(nb[0].line);
    }
  }

  /* What one line does: it is taken by a comment, it stands for itself, or it is at fault. */
  method TabulateLine(ghost rd: Reading, line: string, index: nat, tabulated: seq<Line>, tabStr: string, first: bool, commentTab: string)
    returns (fault: Result<bool, Fault>, lines: seq<Line>, tab: string, first': bool, comment: string)
    requires SoFar(rd, tabulated, tabStr, first, commentTab)
    ensures
      var rd' := ReadLine(rd, line, index);
      if fault.Ok? then SoFar(rd', lines, tab, first', comment)
      else !Good(rd') && fault.error == FaultKind(rd, rd')
  {
    hide Strip, WellIndented, LinesOf, Unit, Repeat, ScanCount, Mixed, IsComment, LastTabs, Indent;
    fault, lines, tab, first', comment := Ok(true), tabulated, tabStr, first, commentTab;
    LastLine(rd, tabulated);
    if Strip(line) == "" {
      if tabulated != [] && IsComment(tabulated[|tabulated| - 1].text) {
        TakenLines(rd, tabulated, "\n");
        lines := LastText(tabulated, "\n");
      }
      return;
    }
    NotDeeper(rd, line);
    WellIndentedUnit(rd.nb);
    ghost var n := Numbered(line, index);
    UnitMore(rd.nb, n);
    var lineTabStr := Indent(line);
    if lineTabStr != "" {
      if tab == "" {
        if comment == "" {
          comment := lineTabStr;
        }
        var try := TryComment(line, tabulated, "", comment);
        if try.Taken? {
          TakenLines(rd, tabulated, "\n" + line);
          lines := LastText(tabulated, "\n" + line);
          return;
        } else if try.Wrong? {
          fault := Err(InconsistentComment);
          return;
        }
        comment := "";
        tab := lineTabStr;
      }
      if first {
        OneWrong(rd.nb, n);
        fault := Err(AtBeginning);
        return;
      }
      if Mixed(tab) {
        OneWrong(rd.nb, n);
        fault := Err(TabsAndSpaces);
        return;
      }
    }
    first' := false;
    var lineTabs := 0;
    if tab != "" {
      if comment == "" {
        comment := lineTabStr;
      }
      var try := TryComment(line, tabulated, Repeat(tab, tabulated[|tabulated| - 1].tabs), comment);
      if try.Taken? {
        TakenLines(rd, tabulated, "\n" + line);
        lines := LastText(tabulated, "\n" + line);
        return;
      } else if try.Wrong? {
        fault := Err(InconsistentComment);
        return;
      }
      comment := "";
      lineTabs := ScanCount(lineTabStr, tab);
      if Repeat(tab, lineTabs) != lineTabStr {
        WrongCount(rd.nb, n);
        fault := Err(Inconsistent);
        return;
      }
    }
    NoTabs(tab, lineTabStr, lineTabs);
    OneMore(rd.nb, rd.texts, tabulated, n, Line(Strip(line), lineTabs, index, |lineTabStr|));
    lines := tabulated + [Line(Strip(line), lineTabs, index, |lineTabStr|)];
  }

  method TabulateAll(lines: seq<string>, firstIndex: nat) returns (r: Result<seq<Line>, SyntaxError>)
    ensures r.Ok? <==> Good(Read(lines, firstIndex))
    ensures r.Ok? ==> LinesOf(Read(lines, firstIndex).nb, Read(lines, firstIndex).texts, r.value)
    ensures r.Err? ==> FaultIn(lines, firstIndex, r.error)
  {
    hide ReadLine, Good, LinesOf, Unit;
    var tabStr, commentTab, first := "", "", true;
    var tabulated: seq<Line> := [];
    NoLines(lines, firstIndex);
    for i := 0 to |lines|
      invariant SoFar(Read(lines[..i], firstIndex), tabulated, tabStr, first, commentTab)
    {
      ReadNext(lines, i, firstIndex);
      ghost var rd := Read(lines[..i], firstIndex);
      var fault: Result<bool, Fault>;
      fault, tabulated, tabStr, first, commentTab :=
        TabulateLine(rd, lines[i], firstIndex + i, tabulated, tabStr, first, commentTab);
      if fault.Err? {
        FaultFound(lines, i, firstIndex, SyntaxError(fault.error, firstIndex + i));
        return Err(SyntaxError(fault.error, firstIndex + i));
      }
    }
    assert lines[..|lines|] == lines;
    r := Ok(tabulated);
  }

  lemma NoLines(lines: seq<string>, first: nat)
    ensures SoFar(Read(lines[..0], first), [], "", true, "")
  {
    assert Unit([]) == "" && WellIndented([]);
  }

  /** Accepts exactly the documents whose comments hang together and whose other lines are well
      indented; otherwise the error is at the first line that is at fault. */
  method Tabulate(lines: seq<string>, firstIndex: nat) returns (r: Result<seq<Line>, SyntaxError>)
    ensures r.Ok? <==> Good(Read(lines, firstIndex))
    ensures r.Ok? ==> LinesOf(Read(lines, firstIndex).nb, Read(lines, firstIndex).texts, r.value)
    ensures r.Err? ==> FaultIn(lines, firstIndex, r.error)
    ensures NoComments(lines) ==>
      var nb := NotBlank(lines, firstIndex);
      (r.Ok? <==> WellIndented(nb)) && (r.Ok? ==> LinesOf(nb, OwnTexts(nb), r.value)) && (r.Err? ==> FirstFault(nb, r.error))
    ensures OnlyCommentsIndented(lines) ==> (r.Ok? <==> ShareFirst(lines, |lines|))
  {
    hide OnlyCommentsIndented, ShareFirst, Read;
    r := TabulateAll(lines, firstIndex);
    if OnlyCommentsIndented(lines) {
      CommentsShare(lines, firstIndex);
    }
    if NoComments(lines) {
      ReadNoComments(lines, firstIndex);
      if r.Err? {
        NoCommentsFault(lines, firstIndex, r.error);
      }
    }
  }
}
