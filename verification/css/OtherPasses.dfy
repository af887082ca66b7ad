// expand_commas, flatten_rules and fold_commas.
module OtherPasses {
  import opened Selectors
  import opened StyleTree
  import opened MergePass

  // ---- expand_commas ------------------------------------------------------------------

  // What the parser makes of plain CSS: rules hold declarations and comments only, and
  // no selector has an "&".
  predicate PlainCss(ns: seq<Node>) {
    forall n :: n in ns ==> PlainNode(n)
  }

  predicate PlainNode(n: Node) {
    match n
    case Leaf(_) => true
    case Directive(_, kids) => PlainCss(kids)
    case Rule(sels, kids) =>
      sels != [] && (forall s :: s in sels ==> SelectorReady(NestSeqs, s)) && forall k :: k in kids ==> k.Leaf?
  }

  function ExpandRule(sels: seq<Sequence>, kids: seq<Node>): seq<Node> {
    if sels == [] then [] else [Rule([sels[0]], kids)] + ExpandRule(sels[1..], kids)
  }

  function ExpandNode(n: Node): seq<Node>
    decreases n, 0
  {
    match n
    case Leaf(_) => [n]
    case Directive(h, kids) => [Directive(h, Expanded(kids))]
    case Rule(sels, kids) => if |sels| > 1 then ExpandRule(sels, kids) else [n]
  }

  function Expanded(ns: seq<Node>): seq<Node>
    decreases ns, 1
  {
    if ns == [] then [] else ExpandNode(ns[0]) + Expanded(ns[1..])
  }

  /** expand_commas keeps every fact, as often as it was there. */
  lemma {:induction false} ExpandedFacts(ns: seq<Node>, e: Env)
    ensures Facts(Expanded(ns), e) == Facts(ns, e)
    decreases ns, 1
  {
    if ns != [] {
      ExpandNodeFacts(ns[0], e);
      ExpandedFacts(ns[1..], e);
      FactsAppend(ExpandNode(ns[0]), Expanded(ns[1..]), e);
    }
  }

  lemma {:induction false} ExpandNodeFacts(n: Node, e: Env)
    ensures Facts(ExpandNode(n), e) == NodeFacts(n, e)
    decreases n, 0
  {
    match n
    case Leaf(_) =>
      FactsSnoc([], n, e);
    case Directive(h, kids) =>
      ExpandedFacts(kids, Under(e, h));
      FactsSnoc([], Directive(h, Expanded(kids)), e);
    case Rule(sels, kids) =>
      if |sels| > 1 {
        ExpandRuleFacts(sels, kids, e);
      } else {
        FactsSnoc([], n, e);
      }
  }

  lemma {:induction false} ExpandRuleFacts(sels: seq<Sequence>, kids: seq<Node>, e: Env)
    ensures Facts(ExpandRule(sels, kids), e) == RuleFacts(sels, kids, e)
  {
    if sels != [] {
      ExpandRuleFacts(sels[1..], kids, e);
      SingleRuleFacts(sels[0], kids, e);
      assert ExpandRule(sels, kids)[1..] == ExpandRule(sels[1..], kids);
    }
  }

  lemma {:induction false} ExpandedReady(ns: seq<Node>)
    requires PlainCss(ns)
    ensures Ready(NestSeqs, Expanded(ns), false)
    decreases ns
  {
    if ns != [] {
      var n := ns[0];
      assert PlainNode(n);
      ExpandedReady(ns[1..]);
      match n {
        case Leaf(_) =>
          assert ReadyNode(NestSeqs, n, false);
        case Directive(h, kids) =>
          ExpandedReady(kids);
          assert ReadyNode(NestSeqs, Directive(h, Expanded(kids)), false);
        case Rule(sels, kids) =>
          if |sels| > 1 {
            ExpandRuleReady(sels, kids);
          } else {
            assert n == Rule([sels[0]], kids);
            PlainRuleReady(sels[0], kids);
          }
      }
    }
  }

  lemma PlainRuleReady(s: Sequence, kids: seq<Node>)
    requires SelectorReady(NestSeqs, s) && forall k :: k in kids ==> k.Leaf?
    ensures ReadyNode(NestSeqs, Rule([s], kids), false)
  {
    PlainNotLed(Clean(s)[0]);
    forall k | k in kids ensures ReadyNode(NestSeqs, k, EndsInCompound(Clean(s))) {
      assert k.Leaf?;
    }
  }

  lemma {:induction false} ExpandRuleReady(sels: seq<Sequence>, kids: seq<Node>)
    requires forall s :: s in sels ==> SelectorReady(NestSeqs, s)
    requires forall k :: k in kids ==> k.Leaf?
    ensures Ready(NestSeqs, ExpandRule(sels, kids), false)
  {
    if sels != [] {
      PlainRuleReady(sels[0], kids);
      ExpandRuleReady(sels[1..], kids);
    }
  }

  // ---- flatten_rules ------------------------------------------------------------------

  // What parent_ref_rules leaves: one selector a rule, and an "&" only below a rule
  // that ends in a compound. Elsewhere resolving it would be a syntax error.
  predicate RefsResolve(ns: seq<Node>, under: bool) {
    forall n :: n in ns ==> NodeRefsResolve(n, under)
  }

  predicate NodeRefsResolve(n: Node, under: bool) {
    match n
    case Leaf(_) => true
    case Directive(_, kids) => RefsResolve(kids, under)
    case Rule(sels, kids) =>
      |sels| == 1 && SelectorOk(sels[0]) && (ParentLed(sels[0][0]) ==> under) &&
      RefsResolve(kids, EndsInCompound(sels[0]))
  }

  predicate SelectorOk(s: Sequence) {
    s != [] && NEWLINE !in s && forall m :: m in s && m.Compound? ==> m.simples != []
  }

  lemma {:induction false} MergedRefsResolve(ns: seq<Node>, under: bool)
    requires Ready(ParentRefs, ns, under)
    ensures RefsResolve(ns, under)
    decreases ns
  {
    forall n | n in ns ensures NodeRefsResolve(n, under) {
      assert ReadyNode(ParentRefs, n, under);
      match n {
        case Leaf(_) =>
        case Directive(_, kids) =>
          MergedRefsResolve(kids, under);
        case Rule(sels, kids) =>
          assert Clean(sels[0]) == sels[0];
          MergedRefsResolve(kids, EndsInCompound(sels[0]));
      }
    }
  }

  predicate OnlyRule(kids: seq<Node>) {
    |kids| == 1 && kids[0].Rule?
  }

  // A rule and its only child as one rule.
  ghost function FlattenOnce(rule: Node, under: bool): (r: Node)
    requires rule.Rule? && NodeRefsResolve(rule, under) && OnlyRule(rule.children)
    ensures r.Rule? && NodeRefsResolve(r, under)
    ensures r.children == rule.children[0].children
  {
    var child := rule.children[0];
    assert RefsResolve(rule.children, EndsInCompound(rule.sels[0])) && child in rule.children;
    assert NodeRefsResolve(child, EndsInCompound(rule.sels[0]));
    var s := Join(rule.sels[0], child.sels[0]);
    JoinOk(rule.sels[0], child.sels[0]);
    var r := Rule([s], child.children);
    assert NodeRefsResolve(r, under);
    r
  }

  lemma JoinOk(s: Sequence, t: Sequence)
    requires SelectorOk(s) && SelectorOk(t) && (ParentLed(t[0]) ==> EndsInCompound(s))
    ensures SelectorOk(Join(s, t))
    ensures ParentLed(Join(s, t)[0]) ==> ParentLed(s[0])
    ensures EndsInCompound(Join(s, t)) == EndsInCompound(t)
  {
    if ParentLed(t[0]) {
      var last := Compound(s[|s| - 1].simples + t[0].simples[1..]);
      assert s[|s| - 1] in s;
      assert last.simples[0] == s[|s| - 1].simples[0];
      forall m | m in Join(s, t) ensures m != NEWLINE && (m.Compound? ==> m.simples != []) {
        assert m in s || m == last || m in t;
      }
    }
  }

  ghost function FlatRule(rule: Node, under: bool): (r: Node)
    requires rule.Rule? && NodeRefsResolve(rule, under)
    ensures r.Rule? && NodeRefsResolve(r, under)
    decreases rule.children, 1
  {
    if OnlyRule(rule.children) then FlatRule(FlattenOnce(rule, under), under)
    else
      Rule(rule.sels, Flattened(rule.children, EndsInCompound(rule.sels[0])))
  }

  ghost function Flattened(ns: seq<Node>, under: bool): (r: seq<Node>)
    requires RefsResolve(ns, under)
    ensures RefsResolve(r, under)
    decreases ns, 0
  {
    if ns == [] then []
    else
      assert NodeRefsResolve(ns[0], under);
      var n := match ns[0]
        case Leaf(_) => ns[0]
        case Directive(h, kids) => Directive(h, Flattened(kids, under))
        case Rule(_, _) => FlatRule(ns[0], under);
      assert NodeRefsResolve(n, under);
      [n] + Flattened(ns[1..], under)
  }

  lemma FlattenOnceFacts(rule: Node, under: bool, e: Env)
    requires rule.Rule? && NodeRefsResolve(rule, under) && OnlyRule(rule.children)
    ensures NodeFacts(FlattenOnce(rule, under), e) == NodeFacts(rule, e)
  {
    var child := rule.children[0];
    assert RefsResolve(rule.children, EndsInCompound(rule.sels[0])) && child in rule.children;
    assert NodeRefsResolve(child, EndsInCompound(rule.sels[0]));
    var s, t := rule.sels[0], child.sels[0];
    assert rule == Rule([s], [child]) && child == Rule([t], child.children);
    JoinOk(s, t);
    assert Clean(s) == s && Clean(t) == t && Clean(Join(s, t)) == Join(s, t);
    assert ParentLed(t[0]) ==> s[|s| - 1] in s;
    ResolveJoin(e.selector, s, t);
    SingleRuleFacts(s, [child], e);
    FactsSnoc([], child, Within(e, s));
    assert [] + [child] == [child];
    SingleRuleFacts(t, child.children, Within(e, s));
    SingleRuleFacts(Join(s, t), child.children, e);
  }

  /** flatten_rules keeps every fact, as often as it was there. */
  lemma {:induction false} FlattenedFacts(ns: seq<Node>, under: bool, e: Env)
    requires RefsResolve(ns, under)
    ensures Facts(Flattened(ns, under), e) == Facts(ns, e)
    decreases ns, 0
  {
    if ns != [] {
      var n := ns[0];
      assert NodeRefsResolve(n, under);
      match n {
        case Leaf(_) =>
        case Directive(h, kids) =>
          FlattenedFacts(kids, under, Under(e, h));
        case Rule(_, _) =>
          FlatRuleFacts(n, under, e);
      }
      FlattenedFacts(ns[1..], under, e);
      assert Flattened(ns, under)[1..] == Flattened(ns[1..], under);
    }
  }

  lemma {:induction false} FlatRuleFacts(rule: Node, under: bool, e: Env)
    requires rule.Rule? && NodeRefsResolve(rule, under)
    ensures NodeFacts(FlatRule(rule, under), e) == NodeFacts(rule, e)
    decreases rule.children, 1
  {
    if OnlyRule(rule.children) {
      FlattenOnceFacts(rule, under, e);
      FlatRuleFacts(FlattenOnce(rule, under), under, e);
    } else {
      var s, below := rule.sels[0], EndsInCompound(rule.sels[0]);
      assert rule == Rule([s], rule.children);
      FlattenedFacts(rule.children, below, Within(e, s));
      SingleRuleFacts(s, rule.children, e);
      SingleRuleFacts(s, Flattened(rule.children, below), e);
    }
  }

  // ---- fold_commas --------------------------------------------------------------------

  // What is left of a tree when it is printed: object identity is gone.
  function Printed(ns: seq<Node>): seq<Node>
    decreases ns, 0
  {
    if ns == [] then [] else [PrintedNode(ns[0])] + Printed(ns[1..])
  }

  function PrintedNode(n: Node): Node
    decreases n, 1
  {
    match n
    case Leaf(d) => Leaf(Decl(0, d.text))
    case Directive(h, kids) => Directive(h, Printed(kids))
    case Rule(sels, kids) => Rule(sels, Printed(kids))
  }

  lemma {:induction false} PrintedFacts(ns: seq<Node>, e: Env)
    requires !e.ids
    ensures Facts(Printed(ns), e) == Facts(ns, e)
    decreases ns, 0
  {
    if ns != [] {
      PrintedNodeFacts(ns[0], e);
      PrintedFacts(ns[1..], e);
      assert Printed(ns)[1..] == Printed(ns[1..]);
    }
  }

  lemma {:induction false} PrintedNodeFacts(n: Node, e: Env)
    requires !e.ids
    ensures NodeFacts(PrintedNode(n), e) == NodeFacts(n, e)
    decreases n, 2
  {
    match n
    case Leaf(_) =>
    case Directive(h, kids) =>
      PrintedFacts(kids, Under(e, h));
    case Rule(sels, kids) =>
      PrintedRuleFacts(sels, kids, e);
  }

  lemma {:induction false} PrintedRuleFacts(sels: seq<Sequence>, kids: seq<Node>, e: Env)
    requires !e.ids
    ensures RuleFacts(sels, Printed(kids), e) == RuleFacts(sels, kids, e)
    decreases kids, 1, |sels|
  {
    if sels != [] {
      PrintedFacts(kids, Within(e, sels[0]));
      PrintedRuleFacts(sels[1..], kids, e);
    }
  }

  predicate OneSelectorEach(ns: seq<Node>) {
    forall n :: n in ns ==> OneSelector(n)
  }

  predicate OneSelector(n: Node) {
    match n
    case Leaf(_) => true
    case Directive(_, kids) => OneSelectorEach(kids)
    case Rule(sels, kids) => |sels| == 1 && OneSelectorEach(kids)
  }

  lemma {:induction false} RefsResolveOneSelector(ns: seq<Node>, under: bool)
    requires RefsResolve(ns, under)
    ensures OneSelectorEach(ns)
    decreases ns
  {
    forall n | n in ns ensures OneSelector(n) {
      assert NodeRefsResolve(n, under);
      match n {
        case Leaf(_) =>
        case Directive(_, kids) => RefsResolveOneSelector(kids, under);
        case Rule(sels, kids) => RefsResolveOneSelector(kids, EndsInCompound(sels[0]));
      }
    }
  }

  // prev_rule takes over the selector of a rule whose children print the same. The
  // children of prev_rule were folded already, those of the rule were not.
  predicate Folds(st: Scan, kids: seq<Node>)
    requires FoldValid(st)
  {
    0 <= st.current && Printed(st.out[st.current].children) == Printed(kids)
  }

  predicate FoldValid(st: Scan) {
    -1 <= st.current < |st.out| && (0 <= st.current ==> st.out[st.current].Rule?)
  }

  function FoldStep(n: Node, st: Scan): (r: Scan)
    requires OneSelector(n) && FoldValid(st)
    ensures FoldValid(r)
    decreases n, 1
  {
    match n
    case Leaf(_) => Scan(st.out + [n], st.current)
    case Directive(h, kids) => Scan(st.out + [Directive(h, Folded(kids))], st.current)
    case Rule(sels, kids) =>
      if Folds(st, kids) then
        var prev := st.out[st.current];
        Scan(st.out[st.current := Rule(prev.sels + [sels[0]], prev.children)], st.current)
      else
        Scan(st.out + [Rule(sels, Folded(kids))], |st.out|)
  }

  function FoldScan(ns: seq<Node>, st: Scan): (r: Scan)
    requires OneSelectorEach(ns) && FoldValid(st)
    ensures FoldValid(r)
    decreases ns, 0
  {
    if ns == [] then st
    else
      assert OneSelector(ns[0]);
      FoldScan(ns[1..], FoldStep(ns[0], st))
  }

  function Folded(ns: seq<Node>): seq<Node>
    requires OneSelectorEach(ns)
    decreases ns, 1
  {
    FoldScan(ns, Scan([], -1)).out
  }

  /** fold_commas keeps what is printed: every fact, as often as it was there. */
  lemma {:induction false} FoldedFacts(ns: seq<Node>, e: Env)
    requires OneSelectorEach(ns) && !e.ids
    ensures Facts(Folded(ns), e) == Facts(ns, e)
    decreases ns, 1
  {
    FoldScanFacts(ns, Scan([], -1), e);
  }

  lemma {:induction false} FoldScanFacts(ns: seq<Node>, st: Scan, e: Env)
    requires OneSelectorEach(ns) && FoldValid(st) && !e.ids
    ensures Facts(FoldScan(ns, st).out, e) == Facts(st.out, e) + Facts(ns, e)
    decreases ns, 0
  {
    if ns != [] {
      assert OneSelector(ns[0]);
      FoldStepFacts(ns[0], st, e);
      FoldScanFacts(ns[1..], FoldStep(ns[0], st), e);
    }
  }

  lemma {:induction false} FoldStepFacts(n: Node, st: Scan, e: Env)
    requires OneSelector(n) && FoldValid(st) && !e.ids
    ensures Facts(FoldStep(n, st).out, e) == Facts(st.out, e) + NodeFacts(n, e)
    decreases n, 1
  {
    match n
    case Leaf(_) =>
      FactsSnoc(st.out, n, e);
    case Directive(h, kids) =>
      FoldedFacts(kids, Under(e, h));
      FactsSnoc(st.out, Directive(h, Folded(kids)), e);
    case Rule(sels, kids) =>
      assert sels == [sels[0]] == sels[..1];
      SingleRuleFacts(sels[0], kids, e);
      if Folds(st, kids) {
        var prev := st.out[st.current];
        FactsUpdate(st.out, st.current, Rule(prev.sels + sels, prev.children), e);
        RuleFactsAppend(prev.sels, sels, prev.children, e);
        SingleRuleFacts(sels[0], prev.children, e);
        PrintedFacts(prev.children, Within(e, sels[0]));
        PrintedFacts(kids, Within(e, sels[0]));
      } else {
        FoldedFacts(kids, Within(e, sels[0]));
        SingleRuleFacts(sels[0], Folded(kids), e);
        FactsSnoc(st.out, Rule(sels, Folded(kids)), e);
      }
  }
}
