// The passes as loops over a list of children, the way css.rb writes them, and
// build_tree, which runs them one after the other. In the program a list is rewritten
// in place; here a pass returns the new list.
module CssPasses {
  import opened Selectors
  import opened StyleTree
  import opened MergePass
  import opened OtherPasses
  import opened CssToSass
  import opened DropCount
  import opened DropCondition
  import opened ListedTwice
  import opened BothPasses
  import opened BagKept
  import opened FoldGroups
  import opened MergedForm

  method ExpandCommas(root: seq<Node>) returns (r: seq<Node>)
    ensures r == Expanded(root)
    decreases root, 1
  {
    r := [];
    for i := 0 to |root|
      invariant Expanded(root) == r + Expanded(root[i..])
    {
      var expanded := ExpandChild(root[i]);
      assert root[i..][1..] == root[i + 1..];
      assert Expanded(root[i..]) == expanded + Expanded(root[i + 1..]);
      assert r + (expanded + Expanded(root[i + 1..])) == (r + expanded) + Expanded(root[i + 1..]);
      r := r + expanded;
    }
  }

  method ExpandChild(child: Node) returns (r: seq<Node>)
    ensures r == ExpandNode(child)
    decreases child, 0
  {
    match child
    case Leaf(_) =>
      r := [child];
    case Directive(header, kids) =>
      var expanded := ExpandCommas(kids);
      r := [Directive(header, expanded)];
    case Rule(sels, kids) =>
      if |sels| <= 1 {
        return [child];
      }
      r := [];
      for j := 0 to |sels|
        invariant ExpandRule(sels, kids) == r + ExpandRule(sels[j..], kids)
      {
        assert sels[j..][1..] == sels[j + 1..];
        SeqPush(r, Rule([sels[j]], kids), ExpandRule(sels[j + 1..], kids));
        r := r + [Rule([sels[j]], kids)];
      }
  }

  // A new rule is put there without children, and then gets what the current rule gets.
  lemma AttachInPlace(st: Scan, reuse: bool, head: Sequence, below: seq<Node>)
    requires st.Valid() && (reuse ==> 0 <= st.current)
    ensures
      var started := if reuse then st else Scan(st.out + [Rule([head], [])], |st.out|);
      var rule := started.out[started.current];
      Scan(started.out[started.current := Rule(rule.sels, rule.children + below)], started.current) ==
      Attach(st, reuse, head, below)
  {
    assert [] + below == below;
    assert (st.out + [Rule([head], [])])[|st.out| := Rule([head], below)] == st.out + [Rule([head], below)];
  }

  lemma NestRuleIsAttach(st: Scan, s: Sequence, kids: seq<Node>, under: bool)
    requires ScanReady(Pass.NestSeqs, st, under) && ReadyNode(Pass.NestSeqs, Rule([s], kids), under)
    ensures
      var first, rest := Clean(s)[0], Clean(s)[1..];
      var below := if rest == [] then kids else [Rule([rest], kids)];
      MergeStep(Pass.NestSeqs, Rule([s], kids), st, under) ==
      Attach(st, 0 <= st.current && Same(st.out[st.current].sels[0][0], first), [first], below)
  {
  }

  // The body of nest_seqs' loop for a rule.
  method NestRule(child: Node, out: seq<Node>, current: int, ghost under: bool)
    returns (out': seq<Node>, current': int)
    requires child.Rule? && ReadyNode(Pass.NestSeqs, child, under)
    requires ScanReady(Pass.NestSeqs, Scan(out, current), under)
    ensures Scan(out', current') == MergeStep(Pass.NestSeqs, child, Scan(out, current), under)
  {
    var kids := child.children;
    var members := Clean(child.sels[0]);
    var first, rest := members[0], members[1..];
    out', current' := out, current;
    assert child == Rule([child.sels[0]], kids);
    NestRuleIsAttach(Scan(out, current), child.sels[0], kids, under);
    hide MergeStep, Attach;
    ghost var reuse := 0 <= current && Same(out[current].sels[0][0], first);
    if current == -1 || !Same(out[current].sels[0][0], first) {
      current' := |out'|;
      out' := out' + [Rule([[first]], [])];
    }
    var below := if rest == [] then kids else [Rule([rest], kids)];
    AttachInPlace(Scan(out, current), reuse, [first], below);
    out' := out'[current' := Rule(out'[current'].sels, out'[current'].children + below)];
  }

  /* A rule that joins the current one is replaced by a reference to it, and uniq!
     drops all references but the first. Here such a rule adds nothing to `out`. */
  method NestSeqs(root: seq<Node>, ghost under: bool) returns (r: seq<Node>)
    requires Ready(Pass.NestSeqs, root, under)
    ensures r == Merged(Pass.NestSeqs, root, under) && FullyMerged(Pass.NestSeqs, r)
    decreases Weight(Pass.NestSeqs, root), 1
  {
    ghost var p := Pass.NestSeqs;
    var out: seq<Node>, current := [], -1;
    for i := 0 to |root|
      invariant ScanReady(p, Scan(out, current), under)
      invariant MergeScan(p, root, Scan([], -1), under) == MergeScan(p, root[i..], Scan(out, current), under)
    {
      var child := root[i];
      ghost var before := Scan(out, current);
      assert ReadyNode(p, child, under) && root[i..][1..] == root[i + 1..];
      WeightAt(p, root, i);
      match child {
        case Leaf(_) =>
          out := out + [child];
        case Directive(header, kids) =>
          var nested := NestSeqs(kids, under);
          out := out + [Directive(header, nested)];
        case Rule(sels, kids) =>
          out, current := NestRule(child, out, current, under);
      }
      assert Scan(out, current) == MergeStep(p, child, before, under);
    }
    WeightUniq(p, out, {});
    r := NestSeqsBelow(Uniq(out, {}), under);
    MergedFully(p, root, under);
  }

  // The pass on every child of the rewritten list.
  method NestSeqsBelow(out: seq<Node>, ghost under: bool) returns (r: seq<Node>)
    requires Ready(Pass.NestSeqs, out, under)
    ensures r == MergedEach(Pass.NestSeqs, out, under)
    decreases Weight(Pass.NestSeqs, out), 0
  {
    hide Merged;
    ghost var p := Pass.NestSeqs;
    r := [];
    for i := 0 to |out|
      invariant MergedEach(p, out, under) == r + MergedEach(p, out[i..], under)
    {
      var child := out[i];
      MergedEachAt(p, out, i, under);
      match child {
        case Leaf(_) =>
        case Directive(header, kids) =>
          var nested := NestSeqs(kids, under);
          child := Directive(header, nested);
        case Rule(sels, kids) =>
          var nested := NestSeqs(kids, EndsInCompound(Clean(sels[0])));
          child := Rule(sels, nested);
      }
      SeqPush(r, child, MergedEach(p, out[i + 1..], under));
      r := r + [child];
    }
  }

  lemma SeqPush<T>(a: seq<T>, x: T, b: seq<T>)
    ensures a + ([x] + b) == (a + [x]) + b
  {
  }

  lemma MergedEachAt(p: Pass, ns: seq<Node>, i: nat, under: bool)
    requires Ready(p, ns, under) && i < |ns|
    ensures ReadyNode(p, ns[i], under) && NodeWeight(p, ns[i]) <= Weight(p, ns)
    ensures MergedEach(p, ns[i..], under) == [MergedNode(p, ns[i], under)] + MergedEach(p, ns[i + 1..], under)
  {
    assert ns[i..][1..] == ns[i + 1..];
    WeightAt(p, ns, i);
  }

  lemma {:induction false} WeightAt(p: Pass, ns: seq<Node>, i: nat)
    requires i < |ns|
    ensures NodeWeight(p, ns[i]) <= Weight(p, ns)
  {
    if i > 0 {
      WeightAt(p, ns[1..], i - 1);
    }
  }

  lemma MergeRuleIsAttach(st: Scan, s: Sequence, kids: seq<Node>, under: bool)
    requires ScanReady(Pass.ParentRefs, st, under) && ReadyNode(Pass.ParentRefs, Rule([s], kids), under)
    requires s[0].Compound?
    ensures
      var taken := if s[0].simples[0] == Parent then 2 else 1;
      var head, rest := Compound(s[0].simples[..taken]), s[0].simples[taken..];
      var below := if rest == [] then kids else [Rule([[Compound([Parent] + rest)]], kids)];
      MergeStep(Pass.ParentRefs, Rule([s], kids), st, under)
        == Attach(st, 0 <= st.current && st.out[st.current].sels[0][0] == head, [head], below)
  {
  }

  // The body of the loop for a rule.
  method ParentRefRule(child: Node, out: seq<Node>, current: int, ghost under: bool)
    returns (out': seq<Node>, current': int)
    requires child.Rule? && ReadyNode(Pass.ParentRefs, child, under)
    requires ScanReady(Pass.ParentRefs, Scan(out, current), under)
    ensures Scan(out', current') == MergeStep(Pass.ParentRefs, child, Scan(out, current), under)
  {
    var kids, sseq := child.children, child.sels[0][0];
    out', current' := out, current;
    assert child == Rule([child.sels[0]], kids);
    if sseq.Op? {
      out' := out' + [child];
    } else {
      var taken := if sseq.simples[0] == Parent then 2 else 1;
      var firsts, rest := sseq.simples[..taken], sseq.simples[taken..];
      MergeRuleIsAttach(Scan(out, current), child.sels[0], kids, under);
      hide MergeStep, Attach;
      ghost var reuse := 0 <= current && out[current].sels[0][0] == Compound(firsts);
      if current == -1 || out[current].sels[0][0] != Compound(firsts) {
        current' := |out'|;
        out' := out' + [Rule([[Compound(firsts)]], [])];
      }
      var below := if rest == [] then kids else [Rule([[Compound([Parent] + rest)]], kids)];
      AttachInPlace(Scan(out, current), reuse, [Compound(firsts)], below);
      out' := out'[current' := Rule(out'[current'].sels, out'[current'].children + below)];
    }
  }

  method ParentRefRules(root: seq<Node>, ghost under: bool) returns (r: seq<Node>)
    requires Ready(Pass.ParentRefs, root, under)
    ensures r == Merged(Pass.ParentRefs, root, under) && FullyMerged(Pass.ParentRefs, r)
    decreases Weight(Pass.ParentRefs, root), 1
  {
    ghost var p := Pass.ParentRefs;
    var out: seq<Node>, current := [], -1;
    for i := 0 to |root|
      invariant ScanReady(p, Scan(out, current), under)
      invariant MergeScan(p, root, Scan([], -1), under) == MergeScan(p, root[i..], Scan(out, current), under)
    {
      var child := root[i];
      ghost var before := Scan(out, current);
      assert ReadyNode(p, child, under) && root[i..][1..] == root[i + 1..];
      WeightAt(p, root, i);
      match child {
        case Leaf(_) =>
          out := out + [child];
        case Directive(header, kids) =>
          var merged := ParentRefRules(kids, under);
          out := out + [Directive(header, merged)];
        case Rule(sels, kids) =>
          out, current := ParentRefRule(child, out, current, under);
      }
      assert Scan(out, current) == MergeStep(p, child, before, under);
    }
    WeightUniq(p, out, {});
    r := ParentRefRulesBelow(Uniq(out, {}), under);
    MergedFully(p, root, under);
  }

  // The pass on every child of the rewritten list.
  method ParentRefRulesBelow(out: seq<Node>, ghost under: bool) returns (r: seq<Node>)
    requires Ready(Pass.ParentRefs, out, under)
    ensures r == MergedEach(Pass.ParentRefs, out, under)
    decreases Weight(Pass.ParentRefs, out), 0
  {
    hide Merged;
    ghost var p := Pass.ParentRefs;
    r := [];
    for i := 0 to |out|
      invariant MergedEach(p, out, under) == r + MergedEach(p, out[i..], under)
    {
      var child := out[i];
      MergedEachAt(p, out, i, under);
      match child {
        case Leaf(_) =>
        case Directive(header, kids) =>
          var merged := ParentRefRules(kids, under);
          child := Directive(header, merged);
        case Rule(sels, kids) =>
          var merged := ParentRefRules(kids, EndsInCompound(Clean(sels[0])));
          child := Rule(sels, merged);
      }
      SeqPush(r, child, MergedEach(p, out[i + 1..], under));
      r := r + [child];
    }
  }

  method FlattenRules(root: seq<Node>, ghost under: bool) returns (r: seq<Node>)
    requires RefsResolve(root, under)
    ensures r == Flattened(root, under)
    decreases root, 0
  {
    r := [];
    for i := 0 to |root|
      invariant Flattened(root, under) == r + Flattened(root[i..], under)
    {
      var child := root[i];
      assert NodeRefsResolve(child, under) && root[i..][1..] == root[i + 1..];
      match child {
        case Leaf(_) =>
        case Directive(header, kids) =>
          var flat := FlattenRules(kids, under);
          child := Directive(header, flat);
        case Rule(_, _) =>
          child := FlattenRule(child, under);
      }
      assert Flattened(root[i..], under) == [child] + Flattened(root[i + 1..], under);
      SeqPush(r, child, Flattened(root[i + 1..], under));
      r := r + [child];
    }
  }

  method FlattenRule(rule: Node, ghost under: bool) returns (r: Node)
    requires rule.Rule? && NodeRefsResolve(rule, under)
    ensures r == FlatRule(rule, under)
    decreases rule.children, 1
  {
    var sels, kids := rule.sels, rule.children;
    while |kids| == 1 && kids[0].Rule?
      invariant NodeRefsResolve(Rule(sels, kids), under)
      invariant FlatRule(Rule(sels, kids), under) == FlatRule(rule, under)
      invariant kids == rule.children || (rule.children decreases to kids)
      decreases kids
    {
      ghost var before := Rule(sels, kids);
      var child := kids[0];
      assert RefsResolve(kids, EndsInCompound(sels[0])) && child in kids;
      assert NodeRefsResolve(child, EndsInCompound(sels[0]));
      if ParentLed(child.sels[0][0]) {
        var s, t := sels[0], child.sels[0];
        sels := [s[..|s| - 1] + [Compound(s[|s| - 1].simples + t[0].simples[1..])] + t[1..]];
      } else {
        sels := [sels[0] + child.sels[0]];
      }
      kids := child.children;
      assert Rule(sels, kids) == FlattenOnce(before, under);
    }
    var flat := FlattenRules(kids, EndsInCompound(sels[0]));
    r := Rule(sels, flat);
  }

  method FoldCommas(root: seq<Node>) returns (r: seq<Node>)
    requires OneSelectorEach(root)
    ensures r == Folded(root)
    ensures exists taken :: Grouped(root, r, taken)
    decreases root
  {
    hide Grouped;
    ghost var taken := FoldedGroups(root);
    var out: seq<Node>, prev := [], -1;
    for i := 0 to |root|
      invariant FoldValid(Scan(out, prev))
      invariant FoldScan(root, Scan([], -1)) == FoldScan(root[i..], Scan(out, prev))
    {
      var child := root[i];
      ghost var before := Scan(out, prev);
      assert OneSelector(child) && root[i..][1..] == root[i + 1..];
      match child {
        case Leaf(_) =>
          out := out + [child];
        case Directive(header, kids) =>
          var folded := FoldCommas(kids);
          out := out + [Directive(header, folded)];
        case Rule(sels, kids) =>
          if prev != -1 && Printed(out[prev].children) == Printed(kids) {
            out := out[prev := Rule(out[prev].sels + [sels[0]], out[prev].children)];
          } else {
            var folded := FoldCommas(kids);
            prev := |out|;
            out := out + [Rule(sels, folded)];
          }
      }
      assert Scan(out, prev) == FoldStep(child, before);
    }
    r := out;
  }

  /** The program's result means what the CSS meant. */
  method BuildTree(root: seq<Node>) returns (r: seq<Node>)
    requires PlainCss(root)
    ensures r == Built(root)
    ensures forall f :: f in Facts(r, TOP) <==> f in Facts(root, TOP)
    ensures Facts(r, TOP) == Facts(root, TOP) <==> DroppedInAll(root) == 0
    ensures Distinct(root) ==>
      (Facts(r, TOP) == Facts(root, TOP) <==> NoneMeetAgain(root) && Safe(ParentRefs, Nested(root)))
    ensures Distinct(root) && SpelledAlike(root) ==> (Facts(r, TOP) == Facts(root, TOP) <==> NoneMeetInAll(root))
    ensures NoRepeats(root, TOP_IDS) ==> Facts(r, TOP) == Facts(root, TOP)
    ensures NothingToFold(r) && OnlyRulesFolded(r) && exists taken :: Grouped(Unfolded(root), r, taken)
  {
    BuiltSettled(root);
    ExpandedReady(root);
    r := ExpandCommas(root);
    NestedReadyForRefs(r, false);
    r := NestSeqs(r, false);
    r := ParentRefRules(r, false);
    MergedRefsResolve(r, false);
    r := FlattenRules(r, false);
    RefsResolveOneSelector(r, false);
    r := FoldCommas(r);
    BuiltKeepsMeaning(root);
    BagKeptIff(root);
    if Distinct(root) && SpelledAlike(root) {
      BagKeptOnCss(root);
    }
    if NoRepeats(root, TOP_IDS) {
      BuiltKeepsBag(root);
    }
  }
}
