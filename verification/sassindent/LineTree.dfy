// From lines that know how deep they stand to the forest that they outline.
module LineTree {
  import opened IndentedLines
  import opened DocumentLines

  datatype Outline<+T> = Outline(item: T, children: seq<Outline<T>>)

  // ---- Forests as lists ---------------------------------------------------------------------------

  // The items in preorder, each with its depth.
  function Flat<T>(forest: seq<Outline<T>>, depth: nat): seq<(nat, T)> {
    if forest == [] then []
    else [(depth, forest[0].item)] + Flat(forest[0].children, depth + 1) + Flat(forest[1..], depth)
  }

  lemma {:induction false} FlatConcat<T>(a: seq<Outline<T>>, b: seq<Outline<T>>, depth: nat)
    ensures Flat(a + b, depth) == Flat(a, depth) + Flat(b, depth)
  {
    if a == [] {
      assert a + b == b;
    } else {
      assert (a + b)[1..] == a[1..] + b;
      FlatConcat(a[1..], b, depth);
      Assoc([(depth, a[0].item)] + Flat(a[0].children, depth + 1), Flat(a[1..], depth), Flat(b, depth));
    }
  }

  lemma {:induction false} Assoc<T>(a: seq<T>, b: seq<T>, c: seq<T>)
    ensures a + b + c == a + (b + c)
  {
  }

  // No item is more than one level deeper than the item before it, or higher than base.
  ghost predicate Steps<T>(flat: seq<(nat, T)>, base: nat) {
    (forall k :: 0 <= k < |flat| ==> base <= flat[k].0) &&
    (flat != [] ==> flat[0].0 == base) &&
    (forall k, l :: 0 <= k < |flat| - 1 && l == k + 1 ==> flat[l].0 <= flat[k].0 + 1)
  }

  lemma {:induction false} FlatSteps<T>(forest: seq<Outline<T>>, depth: nat)
    ensures Steps(Flat(forest, depth), depth)
  {
    if forest != [] {
      FlatSteps(forest[0].children, depth + 1);
      FlatSteps(forest[1..], depth);
      hide Flat;
      StepsTogether(forest[0].item, Flat(forest[0].children, depth + 1), Flat(forest[1..], depth), depth);
    }
  }

  lemma {:induction false} StepsTogether<T>(item: T, inner: seq<(nat, T)>, behind: seq<(nat, T)>, depth: nat)
    requires Steps(inner, depth + 1) && Steps(behind, depth)
    ensures Steps([(depth, item)] + inner + behind, depth)
  {
  }

  /** A list outlines one forest only. */
  lemma {:induction false} FlatInjective<T>(a: seq<Outline<T>>, b: seq<Outline<T>>, depth: nat)
    requires Flat(a, depth) == Flat(b, depth)
    ensures a == b
    decreases a
  {
    if a != [] && b != [] {
      var (x, y) := (a[0], b[0]);
      FlatSteps(x.children, depth + 1);
      FlatSteps(y.children, depth + 1);
      FlatSteps(a[1..], depth);
      FlatSteps(b[1..], depth);
      SplitAtDepth((depth, x.item), Flat(x.children, depth + 1), Flat(a[1..], depth),
        (depth, y.item), Flat(y.children, depth + 1), Flat(b[1..], depth), depth);
      FlatInjective(x.children, y.children, depth + 1);
      FlatInjective(a[1..], b[1..], depth);
      assert a == [x] + a[1..] && b == [y] + b[1..];
    }
  }

  lemma {:induction false} BehindInner<T>(x: (nat, T), inner: seq<(nat, T)>, behind: seq<(nat, T)>, n: nat, depth: nat)
    requires Steps(inner, depth + 1) && Steps(behind, depth)
    ensures
      var all := [x] + inner + behind;
      (n < |inner| ==> all[1 + n].0 > depth) && (n == |inner| && 1 + n < |all| ==> all[1 + n].0 == depth)
  {
    var all := [x] + inner + behind;
    if n < |inner| {
      assert all[1 + n] == inner[n];
    }
  }

  // What is deeper ends where something is not.
  lemma {:induction false} SplitAtDepth<T>(x: (nat, T), inner: seq<(nat, T)>, behind: seq<(nat, T)>,
                        y: (nat, T), inner': seq<(nat, T)>, behind': seq<(nat, T)>, depth: nat)
    requires [x] + inner + behind == [y] + inner' + behind'
    requires Steps(inner, depth + 1) && Steps(inner', depth + 1) && Steps(behind, depth) && Steps(behind', depth)
    ensures x == y && inner == inner' && behind == behind'
  {
    var all, all' := [x] + inner + behind, [y] + inner' + behind';
    assert all[0] == x && all'[0] == y;
    BehindInner(x, inner, behind, |inner|, depth);
    BehindInner(x, inner, behind, |inner'|, depth);
    BehindInner(y, inner', behind', |inner|, depth);
    BehindInner(y, inner', behind', |inner'|, depth);
    assert all[1..1 + |inner|] == inner && all'[1..1 + |inner'|] == inner';
    assert all[1 + |inner|..] == behind && all'[1 + |inner'|..] == behind';
  }

  // ---- tree ---------------------------------------------------------------------------------------

  type Node = Outline<Line>

  function Tabbed(lines: seq<Line>): (r: seq<(nat, Line)>)
    ensures |r| == |lines|
    ensures forall k :: 0 <= k < |r| ==> r[k] == (lines[k].tabs, lines[k])
  {
    seq(|lines|, k requires 0 <= k < |lines| => (lines[k].tabs, lines[k]))
  }

  datatype TooDeep = TooDeep(levels: nat, line: nat)

  // The first line that is more than one level deeper than the line before it.
  ghost predicate JumpAt(arr: seq<Line>, i: nat, k: nat, e: TooDeep) {
    i < k < |arr| && Steps(Tabbed(arr[i..k]), arr[i].tabs) &&
    arr[k].tabs > arr[k - 1].tabs + 1 && e == TooDeep(arr[k].tabs - arr[k - 1].tabs, arr[k].index)
  }

  ghost predicate Jump(arr: seq<Line>, i: nat, e: TooDeep) {
    exists k: nat :: JumpAt(arr, i, k, e)
  }

  /** The forest of the lines from i on up to the first that stands higher than line i, and
      where that is. */
  method Tree(arr: seq<Line>, i: nat) returns (r: Result<(seq<Node>, nat), TooDeep>)
    requires i <= |arr|
    ensures i == |arr| ==> r == Ok(([], i))
    ensures i < |arr| && r.Ok? ==>
      var (nodes, j) := r.value;
      i < j <= |arr| && Flat(nodes, arr[i].tabs) == Tabbed(arr[i..j]) && (j < |arr| ==> arr[j].tabs < arr[i].tabs)
    ensures i < |arr| && r.Err? ==> Jump(arr, i, r.error)
    decreases |arr| - i
  {
    if i == |arr| {
      return Ok(([], i));
    }
    var base := arr[i].tabs;
    var nodes: seq<Node> := [];
    var j := i;
    while j < |arr| && arr[j].tabs >= base
      invariant i <= j <= |arr| && Flat(nodes, base) == Tabbed(arr[i..j])
      invariant j == i <==> nodes == []
      invariant i < j < |arr| && arr[j].tabs > base ==> nodes[|nodes| - 1].children == []
      decreases |arr| - j
    {
      if arr[j].tabs > base {
        if arr[j].tabs > base + 1 {
          JumpHere(arr, i, j, nodes);
          return Err(TooDeep(arr[j].tabs - base, arr[j].index));
        }
        var inner := Tree(arr, j);
        if inner.Err? {
          JumpInside(arr, i, j, nodes, inner.error);
          return inner;
        }
        var (children, next) := inner.value;
        WithChildren(arr, i, j, next, nodes, children);
        nodes := nodes[|nodes| - 1 := nodes[|nodes| - 1].(children := children)];
        j := next;
      } else {
        OneLine(arr, i, j, nodes);
        nodes := nodes + [Outline(arr[j], [])];
        j := j + 1;
      }
    }
    r := Ok((nodes, j));
  }

  lemma {:induction false} OneLine(arr: seq<Line>, i: nat, j: nat, nodes: seq<Node>)
    requires i <= j < |arr| && Flat(nodes, arr[j].tabs) == Tabbed(arr[i..j])
    ensures Flat(nodes + [Outline(arr[j], [])], arr[j].tabs) == Tabbed(arr[i..j + 1])
  {
    FlatConcat(nodes, [Outline(arr[j], [])], arr[j].tabs);
    assert [Outline(arr[j], [])][1..] == [];
    assert Flat([Outline(arr[j], [])], arr[j].tabs) == [(arr[j].tabs, arr[j])];
    assert arr[i..j + 1] == arr[i..j] + [arr[j]];
  }

  lemma {:induction false} WithChildren(arr: seq<Line>, i: nat, j: nat, next: nat, nodes: seq<Node>, children: seq<Node>)
    requires i <= j < next <= |arr| && nodes != [] && nodes[|nodes| - 1].children == []
    requires arr[j].tabs == arr[i].tabs + 1
    requires Flat(nodes, arr[i].tabs) == Tabbed(arr[i..j]) && Flat(children, arr[j].tabs) == Tabbed(arr[j..next])
    ensures Flat(nodes[|nodes| - 1 := nodes[|nodes| - 1].(children := children)], arr[i].tabs) == Tabbed(arr[i..next])
  {
    var base, front, last := arr[i].tabs, nodes[..|nodes| - 1], nodes[|nodes| - 1];
    ReplaceLast(nodes, last.(children := children));
    FlatConcat(front, [last], base);
    FlatConcat(front, [last.(children := children)], base);
    FlatOne(last, base);
    FlatOne(last.(children := children), base);
    FlatNone<Line>(base + 1);
    TabbedConcat(arr, i, j, next);
    hide Flat, Tabbed;
    Assoc(Flat(front, base), [(base, last.item)], Flat(children, base + 1));
    assert [(base, last.item)] + [] == [(base, last.item)];
  }

  lemma {:induction false} ReplaceLast(nodes: seq<Node>, last: Node)
    requires nodes != []
    ensures nodes == nodes[..|nodes| - 1] + [nodes[|nodes| - 1]]
    ensures nodes[|nodes| - 1 := last] == nodes[..|nodes| - 1] + [last]
  {
  }

  lemma {:induction false} TabbedConcat(arr: seq<Line>, i: nat, j: nat, k: nat)
    requires i <= j <= k <= |arr|
    ensures Tabbed(arr[i..k]) == Tabbed(arr[i..j]) + Tabbed(arr[j..k])
  {
  }

  lemma {:induction false} FlatNone<T>(depth: nat)
    ensures Flat<T>([], depth) == []
  {
  }

  lemma {:induction false} FlatOne<T>(node: Outline<T>, depth: nat)
    ensures Flat([node], depth) == [(depth, node.item)] + Flat(node.children, depth + 1)
  {
    assert [node][1..] == [];
  }

  // The last line before j is at the base, as the last node has no children.
  lemma {:induction false} LastAtBase(arr: seq<Line>, i: nat, j: nat, nodes: seq<Node>)
    requires i < j < |arr| && nodes != [] && nodes[|nodes| - 1].children == []
    requires Flat(nodes, arr[i].tabs) == Tabbed(arr[i..j])
    ensures arr[j - 1].tabs == arr[i].tabs && Steps(Tabbed(arr[i..j]), arr[i].tabs)
  {
    var base, front, last := arr[i].tabs, nodes[..|nodes| - 1], nodes[|nodes| - 1];
    FlatSteps(nodes, base);
    FlatConcat(front, [last], base);
    assert nodes == front + [last];
    FlatOne(last, base);
    FlatNone<Line>(base + 1);
    assert Tabbed(arr[i..j])[j - i - 1] == (base, last.item);
  }

  lemma {:induction false} JumpHere(arr: seq<Line>, i: nat, j: nat, nodes: seq<Node>)
    requires i < j < |arr| && nodes != [] && nodes[|nodes| - 1].children == []
    requires Flat(nodes, arr[i].tabs) == Tabbed(arr[i..j]) && arr[j].tabs > arr[i].tabs + 1
    ensures Jump(arr, i, TooDeep(arr[j].tabs - arr[i].tabs, arr[j].index))
  {
    LastAtBase(arr, i, j, nodes);
    assert JumpAt(arr, i, j, TooDeep(arr[j].tabs - arr[i].tabs, arr[j].index));
  }

  lemma {:induction false} JumpInside(arr: seq<Line>, i: nat, j: nat, nodes: seq<Node>, e: TooDeep)
    requires i < j < |arr| && nodes != [] && nodes[|nodes| - 1].children == []
    requires Flat(nodes, arr[i].tabs) == Tabbed(arr[i..j]) && arr[j].tabs == arr[i].tabs + 1 && Jump(arr, j, e)
    ensures Jump(arr, i, e)
  {
    LastAtBase(arr, i, j, nodes);
    var k: nat :| JumpAt(arr, j, k, e);
    StepsOn(arr, i, j, k);
    assert JumpAt(arr, i, k, e);
  }

  lemma {:induction false} StepsOn(arr: seq<Line>, i: nat, j: nat, k: nat)
    requires i < j < k <= |arr| && arr[j - 1].tabs == arr[i].tabs
    requires Steps(Tabbed(arr[i..j]), arr[i].tabs) && Steps(Tabbed(arr[j..k]), arr[i].tabs + 1)
    ensures Steps(Tabbed(arr[i..k]), arr[i].tabs)
  {
    assert Tabbed(arr[i..j])[j - 1 - i] == (arr[j - 1].tabs, arr[j - 1]);
    hide Tabbed;
    TabbedConcat(arr, i, j, k);
    StepsBehind(Tabbed(arr[i..j]), Tabbed(arr[j..k]), arr[i].tabs);
  }

  lemma {:induction false} StepsBehind<T>(a: seq<(nat, T)>, b: seq<(nat, T)>, base: nat)
    requires Steps(a, base) && Steps(b, base + 1) && a != [] && a[|a| - 1].0 == base
    ensures Steps(a + b, base)
  {
  }

  // ---- Whole documents -----------------------------------------------------------------------------

  /** A list that starts at the top becomes the one forest that it outlines, unless some
      line is more than one level deeper than the line before it. */
  method WholeTree(arr: seq<Line>) returns (r: Result<seq<Node>, TooDeep>)
    requires arr != [] ==> arr[0].tabs == 0
    ensures r.Ok? <==> Steps(Tabbed(arr), 0)
    ensures r.Ok? ==> Flat(r.value, 0) == Tabbed(arr) && forall other :: Flat(other, 0) == Tabbed(arr) ==> other == r.value
    ensures r.Err? ==> Jump(arr, 0, r.error)
  {
    var t := Tree(arr, 0);
    if t.Err? {
      JumpNoSteps(arr, t.error);
      return Err(t.error);
    }
    var (nodes, j) := t.value;
    assert arr[0..j] == arr;
    FlatSteps(nodes, 0);
    forall other | Flat(other, 0) == Tabbed(arr) ensures other == nodes {
      FlatInjective(other, nodes, 0);
    }
    r := Ok(nodes);
  }

  lemma {:induction false} JumpNoSteps(arr: seq<Line>, e: TooDeep)
    requires Jump(arr, 0, e)
    ensures !Steps(Tabbed(arr), 0)
  {
    var k: nat :| JumpAt(arr, 0, k, e);
    assert Tabbed(arr)[k].0 > Tabbed(arr)[k - 1].0 + 1;
  }

  // ---- Printing -------------------------------------------------------------------------------------

  // The lines of an outline, each below its parent and one unit further in.
  function Printed(forest: seq<Outline<string>>, unit: string, depth: nat): seq<string> {
    if forest == [] then []
    else
      [Repeat(unit, depth) + forest[0].item] + Printed(forest[0].children, unit, depth + 1) + Printed(forest[1..], unit, depth)
  }

  function PrintedLines(flat: seq<(nat, string)>, unit: string): (r: seq<string>)
    ensures |r| == |flat|
    ensures forall k :: 0 <= k < |r| ==> r[k] == Repeat(unit, flat[k].0) + flat[k].1
  {
    seq(|flat|, k requires 0 <= k < |flat| => Repeat(unit, flat[k].0) + flat[k].1)
  }

  lemma {:induction false} PrintedFlat(forest: seq<Outline<string>>, unit: string, depth: nat)
    ensures Printed(forest, unit, depth) == PrintedLines(Flat(forest, depth), unit)
  {
    if forest != [] {
      PrintedFlat(forest[0].children, unit, depth + 1);
      PrintedFlat(forest[1..], unit, depth);
    }
  }

  // What can be a line: without space around it, not blank, not a comment.
  predicate Plain(text: string) {
    text != "" && !IsSpace(text[0]) && !IsSpace(text[|text| - 1]) && !IsComment(text)
  }

  predicate AllPlain(forest: seq<Outline<string>>) {
    forall node :: node in forest ==> Plain(node.item) && AllPlain(node.children)
  }

  // The outline of a forest's texts.
  function Texts(nodes: seq<Node>): (r: seq<Outline<string>>)
    ensures |r| == |nodes|
  {
    if nodes == [] then []
    else [Outline(nodes[0].item.text, Texts(nodes[0].children))] + Texts(nodes[1..])
  }

  function FlatTexts(flat: seq<(nat, Line)>): (r: seq<(nat, string)>)
    ensures |r| == |flat|
    ensures forall k :: 0 <= k < |r| ==> r[k] == (flat[k].0, flat[k].1.text)
  {
    seq(|flat|, k requires 0 <= k < |flat| => (flat[k].0, flat[k].1.text))
  }

  lemma {:induction false} FlatTextsConcat(a: seq<(nat, Line)>, b: seq<(nat, Line)>)
    ensures FlatTexts(a + b) == FlatTexts(a) + FlatTexts(b)
  {
  }

  lemma {:induction false} TextsFlat(nodes: seq<Node>, depth: nat)
    ensures Flat(Texts(nodes), depth) == FlatTexts(Flat(nodes, depth))
  {
    if nodes != [] {
      TextsFlat(nodes[0].children, depth + 1);
      TextsFlat(nodes[1..], depth);
      assert Texts(nodes)[1..] == Texts(nodes[1..]);
      var head: seq<(nat, Line)> := [(depth, nodes[0].item)];
      var inner, behind := Flat(nodes[0].children, depth + 1), Flat(nodes[1..], depth);
      FlatTextsConcat(head, inner);
      FlatTextsConcat(head + inner, behind);
      assert FlatTexts(head) == [(depth, nodes[0].item.text)];
    }
  }

  lemma {:induction false} FlatPlain(forest: seq<Outline<string>>, depth: nat)
    requires AllPlain(forest)
    ensures forall k :: 0 <= k < |Flat(forest, depth)| ==> Plain(Flat(forest, depth)[k].1)
  {
    if forest != [] {
      FlatPlain(forest[0].children, depth + 1);
      FlatPlain(forest[1..], depth);
    }
  }

  // Nothing but spaces, or nothing but tabs.
  predicate IndentUnit(unit: string) {
    unit != "" && ((forall c :: c in unit ==> c == ' ') || (forall c :: c in unit ==> c == '\t'))
  }

  lemma {:induction false} RepeatSpaces(unit: string, n: nat)
    requires IndentUnit(unit)
    ensures |Repeat(unit, n)| == n * |unit| && forall c :: c in Repeat(unit, n) ==> IsSpace(c)
    ensures n > 0 ==> Repeat(unit, n) != ""
  {
    if n > 0 {
      RepeatSpaces(unit, n - 1);
    }
  }

  lemma {:induction false} PrintedLine(unit: string, depth: nat, text: string)
    requires IndentUnit(unit) && Plain(text)
    ensures Indent(Repeat(unit, depth) + text) == Repeat(unit, depth) && Strip(Repeat(unit, depth) + text) == text
  {
    RepeatSpaces(unit, depth);
    IndentIs(Repeat(unit, depth), text);
    assert (Repeat(unit, depth) + text)[|Repeat(unit, depth)|..] == text;
  }

  // The lines as tabulate meets them.
  lemma {:induction false} PrintedNotBlank(lines: seq<string>, first: nat)
    requires forall k :: 0 <= k < |lines| ==> Strip(lines[k]) != ""
    ensures |NotBlank(lines, first)| == |lines|
    ensures forall k :: 0 <= k < |lines| ==> NotBlank(lines, first)[k] == Numbered(lines[k], first + k)
  {
    if lines != [] {
      PrintedNotBlank(lines[1..], first + 1);
    }
  }

  lemma {:induction false} StepsFront<T>(flat: seq<(nat, T)>, n: nat)
    requires Steps(flat, 0) && n < |flat|
    ensures Steps(flat[..n], 0) && (n == 0 ==> flat[n].0 == 0) && (n > 0 ==> flat[n].0 <= flat[..n][n - 1].0 + 1)
  {
  }

  // The unit is the first indentation there is.
  lemma {:induction false} PrintedUnit(nb: seq<Numbered>, flat: seq<(nat, string)>, unit: string)
    requires |nb| == |flat| && Steps(flat, 0) && unit != ""
    requires forall k :: 0 <= k < |nb| ==> Indent(nb[k].line) == Repeat(unit, flat[k].0)
    ensures Unit(nb) == unit || (Unit(nb) == "" && forall k :: 0 <= k < |nb| ==> flat[k].0 == 0)
  {
    if nb != [] {
      var n := |nb| - 1;
      assert Repeat(unit, 1) == unit + Repeat(unit, 0) == unit;
      assert Repeat(unit, 0) == "";
      hide Indent, Unit, Repeat;
      assert nb == nb[..n] + [nb[n]];
      StepsFront(flat, n);
      PrintedUnit(nb[..n], flat[..n], unit);
      UnitMore(nb[..n], nb[n]);
      hide Steps;
      assert forall k :: 0 <= k < n ==> flat[..n][k] == flat[k];
      if Unit(nb[..n]) == "" {
        assert flat[n].0 == 0 || flat[n].0 == 1;
      }
    }
  }

  lemma {:induction false} PrintedWellIndented(nb: seq<Numbered>, flat: seq<(nat, string)>, unit: string)
    requires |nb| == |flat| && Steps(flat, 0) && IndentUnit(unit)
    requires forall k :: 0 <= k < |nb| ==> Indent(nb[k].line) == Repeat(unit, flat[k].0)
    ensures WellIndented(nb)
  {
    PrintedUnit(nb, flat, unit);
    forall k | 0 <= k < |nb| ensures Multiple(Unit(nb), nb[k].line) {
      assert Repeat("", 0) == Repeat(unit, 0);
      assert Deep(Unit(nb), nb[k].line, flat[k].0);
    }
  }

  lemma {:induction false} PrintedDepth(nb: seq<Numbered>, flat: seq<(nat, string)>, unit: string, lines: seq<Line>, k: nat)
    requires |nb| == |flat| && Steps(flat, 0) && IndentUnit(unit) && k < |nb| == |lines|
    requires forall k :: 0 <= k < |nb| ==> Indent(nb[k].line) == Repeat(unit, flat[k].0)
    requires LineOf(Unit(nb), nb[k], Strip(nb[k].line), lines[k])
    ensures lines[k].tabs == flat[k].0
  {
    PrintedUnit(nb, flat, unit);
    RepeatSpaces(unit, flat[k].0);
    RepeatSpaces(unit, lines[k].tabs);
    if Unit(nb) == unit {
      SameProduct(lines[k].tabs, flat[k].0, |unit|);
    }
  }

  lemma {:induction false} SameProduct(a: nat, b: nat, c: nat)
    requires c > 0 && a * c == b * c
    ensures a == b
  {
    assert (a - b) * c == 0;
  }

  /** An outline printed with one unit of indentation is read back as the same outline. */
  method PrintAndRead(forest: seq<Outline<string>>, unit: string, firstIndex: nat) returns (nodes: seq<Node>)
    requires AllPlain(forest) && IndentUnit(unit)
    ensures Texts(nodes) == forest
  {
    var lines := Printed(forest, unit, 0);
    ghost var flat := Flat(forest, 0);
    ghost var nb := NotBlank(lines, firstIndex);
    PrintedFacts(forest, unit, firstIndex);
    var tabulated := Tabulate(lines, firstIndex);
    var arr := tabulated.value;
    ReadFacts(forest, unit, firstIndex, arr);
    var tree := WholeTree(arr);
    nodes := tree.value;
    TextsFlat(nodes, 0);
    FlatInjective(Texts(nodes), forest, 0);
  }

  lemma {:induction false} PrintedFacts(forest: seq<Outline<string>>, unit: string, first: nat)
    requires AllPlain(forest) && IndentUnit(unit)
    ensures
      var lines, flat := Printed(forest, unit, 0), Flat(forest, 0);
      var nb := NotBlank(lines, first);
      NoComments(lines) &&
      Steps(flat, 0) && |nb| == |flat| && WellIndented(nb) &&
      forall k :: 0 <= k < |nb| ==> Indent(nb[k].line) == Repeat(unit, flat[k].0) && Strip(nb[k].line) == flat[k].1
  {
    var lines, flat := Printed(forest, unit, 0), Flat(forest, 0);
    PrintedFlat(forest, unit, 0);
    FlatSteps(forest, 0);
    FlatPlain(forest, 0);
    hide Printed, Flat, AllPlain, Strip, Indent, Repeat;
    forall k | 0 <= k < |lines| ensures Indent(lines[k]) == Repeat(unit, flat[k].0) && Strip(lines[k]) == flat[k].1 {
      PrintedLine(unit, flat[k].0, flat[k].1);
    }
    PrintedNotBlank(lines, first);
    PrintedWellIndented(NotBlank(lines, first), flat, unit);
  }

  lemma {:induction false} LineText(unit: string, n: Numbered, text: string, line: Line)
    requires LineOf(unit, n, text, line)
    ensures line.text == text
  {
  }

  lemma {:induction false} SameDepths(arr: seq<Line>, flat: seq<(nat, string)>)
    requires |arr| == |flat| && Steps(flat, 0)
    requires forall k :: 0 <= k < |arr| ==> arr[k].tabs == flat[k].0 && arr[k].text == flat[k].1
    ensures Steps(Tabbed(arr), 0) && FlatTexts(Tabbed(arr)) == flat && (arr != [] ==> arr[0].tabs == 0)
  {
  }

  lemma {:induction false} ReadFacts(forest: seq<Outline<string>>, unit: string, first: nat, arr: seq<Line>)
    requires AllPlain(forest) && IndentUnit(unit)
    requires
      var nb := NotBlank(Printed(forest, unit, 0), first);
      LinesOf(nb, OwnTexts(nb), arr)
    ensures Steps(Tabbed(arr), 0) && FlatTexts(Tabbed(arr)) == Flat(forest, 0) && (arr != [] ==> arr[0].tabs == 0)
  {
    var flat := Flat(forest, 0);
    var nb := NotBlank(Printed(forest, unit, 0), first);
    PrintedFacts(forest, unit, first);
    hide Printed, Flat, AllPlain, Strip, Indent, Repeat, WellIndented, NotBlank, IndentUnit, Unit, Steps, NoComments, LineOf;
    forall k | 0 <= k < |nb| ensures arr[k].tabs == flat[k].0 && arr[k].text == flat[k].1 {
      assert LineOf(Unit(nb), nb[k], OwnTexts(nb)[k], arr[k]);
      PrintedDepth(nb, flat, unit, arr, k);
      LineText(Unit(nb), nb[k], OwnTexts(nb)[k], arr[k]);
    }
    SameDepths(arr, flat);
  }
}
