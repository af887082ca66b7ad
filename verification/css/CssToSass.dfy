// build_tree of css.rb: the chain of passes that turns a parsed CSS tree into an
// idiomatic Sass tree, and what the chain keeps.
module CssToSass {
  import opened Selectors
  import opened StyleTree
  import opened MergePass
  import opened OtherPasses

  /** The tree build_tree returns. bubble_subject moves subject markers only, and the
      selectors here have none; parsing and dumping selectors is not part of the model. */
  ghost function Built(root: seq<Node>): seq<Node>
    requires PlainCss(root)
  {
    ExpandedReady(root);
    var nested := Merged(NestSeqs, Expanded(root), false);
    NestedReadyForRefs(Expanded(root), false);
    var refs := Merged(ParentRefs, nested, false);
    MergedRefsResolve(refs, false);
    var flat := Flattened(refs, false);
    RefsResolveOneSelector(flat, false);
    Folded(flat)
  }

  const TOP: Env := Env(false, [], [])
  const TOP_IDS: Env := Env(true, [], [])

  /** The whole chain keeps the meaning of every plain CSS tree: the same declarations
      apply to the same selectors under the same directives. */
  lemma BuiltKeepsMeaning(root: seq<Node>)
    requires PlainCss(root)
    ensures forall f :: f in Facts(Built(root), TOP) <==> f in Facts(root, TOP)
    ensures Facts(Built(root), TOP) <= Facts(root, TOP)
  {
    var expanded := Expanded(root);
    ExpandedReady(root);
    ExpandedFacts(root, TOP);
    var nested := Merged(NestSeqs, expanded, false);
    MergedFacts(NestSeqs, expanded, false, TOP);
    NestedReadyForRefs(expanded, false);
    var refs := Merged(ParentRefs, nested, false);
    MergedFacts(ParentRefs, nested, false, TOP);
    BackHalfFacts(refs);
  }

  lemma BackHalfFacts(refs: seq<Node>)
    requires Ready(ParentRefs, refs, false)
    ensures RefsResolve(refs, false) && OneSelectorEach(Flattened(refs, false))
    ensures Facts(Folded(Flattened(refs, false)), TOP) == Facts(refs, TOP)
  {
    MergedRefsResolve(refs, false);
    FlattenedFacts(refs, false, TOP);
    RefsResolveOneSelector(Flattened(refs, false), false);
    FoldedFacts(Flattened(refs, false), TOP);
  }

  /** Where no declaration stands twice under one selector, the chain keeps the bag of
      facts: each as often as in the CSS. */
  lemma BuiltKeepsBag(root: seq<Node>)
    requires PlainCss(root) && NoRepeats(root, TOP_IDS)
    ensures Facts(Built(root), TOP) == Facts(root, TOP)
  {
    var expanded := Expanded(root);
    ExpandedReady(root);
    ExpandedFacts(root, TOP);
    ExpandedFacts(root, TOP_IDS);
    var nested := Merged(NestSeqs, expanded, false);
    MergedExact(NestSeqs, expanded, false, TOP);
    MergedExact(NestSeqs, expanded, false, TOP_IDS);
    NestedReadyForRefs(expanded, false);
    MergedExact(ParentRefs, nested, false, TOP);
    BackHalfFacts(Merged(ParentRefs, nested, false));
  }

  // ---- A condition on the CSS under which nothing repeats --------------------------------

  // The declaration objects of a tree. The parser makes each of them once.
  function Decls(ns: seq<Node>): multiset<Decl>
    decreases ns, 0
  {
    if ns == [] then multiset{} else NodeDecls(ns[0]) + Decls(ns[1..])
  }

  function NodeDecls(n: Node): multiset<Decl>
    decreases n, 1
  {
    match n
    case Leaf(d) => multiset{d}
    case Directive(_, kids) => Decls(kids)
    case Rule(_, kids) => Decls(kids)
  }

  // No rule lists the same selector twice.
  predicate SelectorsDiffer(ns: seq<Node>) {
    forall n :: n in ns ==> NodeSelectorsDiffer(n)
  }

  predicate NodeSelectorsDiffer(n: Node) {
    match n
    case Leaf(_) => true
    case Directive(_, kids) => SelectorsDiffer(kids)
    case Rule(sels, _) => Differ(sels)
  }

  predicate Differ(sels: seq<Sequence>) {
    forall i, j :: 0 <= i < j < |sels| ==> Keys(Clean(sels[i])) != Keys(Clean(sels[j]))
  }

  lemma {:induction false} FactDecl(ns: seq<Node>, e: Env, f: Fact)
    requires e.ids && f in Facts(ns, e)
    ensures f.decl in Decls(ns)
    decreases ns, 0
  {
    if f in NodeFacts(ns[0], e) {
      match ns[0] {
        case Leaf(_) =>
        case Directive(h, kids) => FactDecl(kids, Under(e, h), f);
        case Rule(sels, kids) => RuleFactDecl(sels, kids, e, f);
      }
    } else {
      FactDecl(ns[1..], e, f);
    }
  }

  lemma {:induction false} RuleFactDecl(sels: seq<Sequence>, kids: seq<Node>, e: Env, f: Fact)
    requires e.ids && f in RuleFacts(sels, kids, e)
    ensures f.decl in Decls(kids)
    decreases kids, 1, |sels|
  {
    if f in Facts(kids, Within(e, sels[0])) {
      FactDecl(kids, Within(e, sels[0]), f);
    } else {
      RuleFactDecl(sels[1..], kids, e, f);
    }
  }

  /** When every rule lists different selectors, no declaration repeats. */
  lemma {:induction false} DifferentSelectorsNoRepeats(ns: seq<Node>, e: Env)
    requires PlainCss(ns) && SelectorsDiffer(ns) && e.ids
    requires forall d :: Decls(ns)[d] <= 1
    ensures NoRepeats(ns, e)
    decreases ns, 0
  {
    if ns != [] {
      var n, tail := ns[0], ns[1..];
      assert PlainNode(n) && NodeSelectorsDiffer(n);
      forall d ensures Decls(tail)[d] <= 1 && NodeDecls(n)[d] <= 1 {
        assert Decls(ns)[d] <= 1;
      }
      DifferentSelectorsNoRepeats(tail, e);
      forall f ensures Facts(ns, e)[f] <= 1 {
        assert Decls(ns)[f.decl] <= 1;
        if f in Facts(tail, e) {
          FactDecl(tail, e, f);
        }
        if f in NodeFacts(n, e) {
          NodeAtMostOnce(n, e, f);
          FactsSnoc([], n, e);
          FactDecl([] + [n], e, f);
          assert Decls([n][1..]) == multiset{};
          assert [] + [n] == [n];
        }
      }
    }
  }

  lemma {:induction false} NodeAtMostOnce(n: Node, e: Env, f: Fact)
    requires PlainNode(n) && NodeSelectorsDiffer(n) && e.ids
    requires forall d :: NodeDecls(n)[d] <= 1
    ensures NodeFacts(n, e)[f] <= 1
    decreases n, 1
  {
    match n
    case Leaf(_) =>
    case Directive(h, kids) =>
      assert NodeDecls(n) == Decls(kids);
      DifferentSelectorsNoRepeats(kids, Under(e, h));
    case Rule(sels, kids) =>
      assert NodeDecls(n) == Decls(kids);
      RuleAtMostOnce(sels, kids, e, f);
  }

  // The leaves of a rule give facts with the rule's selector.
  lemma {:induction false} LeavesSelector(kids: seq<Node>, e: Env, f: Fact)
    requires (forall k :: k in kids ==> k.Leaf?) && f in Facts(kids, e)
    ensures f.selector == e.selector
  {
    if f !in NodeFacts(kids[0], e) {
      LeavesSelector(kids[1..], e, f);
    }
  }

  lemma {:induction false} LeavesAtMostOnce(kids: seq<Node>, e: Env, f: Fact)
    requires e.ids && (forall k :: k in kids ==> k.Leaf?) && forall d :: Decls(kids)[d] <= 1
    ensures Facts(kids, e)[f] <= 1
  {
    if kids != [] {
      forall d ensures Decls(kids[1..])[d] <= 1 {
        assert Decls(kids)[d] <= 1;
      }
      LeavesAtMostOnce(kids[1..], e, f);
      if f in Facts(kids[1..], e) {
        FactDecl(kids[1..], e, f);
        assert Decls(kids)[f.decl] <= 1;
      }
    }
  }

  lemma {:induction false} RuleAtMostOnce(sels: seq<Sequence>, kids: seq<Node>, e: Env, f: Fact)
    requires Differ(sels) && e.ids && forall s :: s in sels ==> SelectorReady(NestSeqs, s)
    requires (forall k :: k in kids ==> k.Leaf?) && forall d :: Decls(kids)[d] <= 1
    ensures RuleFacts(sels, kids, e)[f] <= 1
    ensures f in RuleFacts(sels, kids, e) ==> exists i :: 0 <= i < |sels| && f.selector == Within(e, sels[i]).selector
  {
    if sels != [] {
      RuleAtMostOnce(sels[1..], kids, e, f);
      LeavesAtMostOnce(kids, Within(e, sels[0]), f);
      if f in Facts(kids, Within(e, sels[0])) {
        LeavesSelector(kids, Within(e, sels[0]), f);
        if f in RuleFacts(sels[1..], kids, e) {
          var i :| 0 <= i < |sels| - 1 && f.selector == Within(e, sels[1..][i]).selector;
          assert SelectorReady(NestSeqs, sels[0]) && SelectorReady(NestSeqs, sels[i + 1]);
          PlainNotLed(Clean(sels[0])[0]);
          PlainNotLed(Clean(sels[i + 1])[0]);
          ResolveInjective(e.selector, Clean(sels[0]), Clean(sels[i + 1]));
        }
      }
    }
  }

  // ---- Where the bag is not kept ---------------------------------------------------------

  /** In `.a, .a {p}` the two parts are merged again and uniq! drops the declaration
      that stands there twice: two facts go in, one comes out. */
  lemma RepeatedSelectorLosesFact()
    ensures
      var a := [Compound([Other(".a")])];
      var root := [Rule([a, a], [Leaf(Decl(1, "p"))])];
      var f := Fact([], Keys(a), Decl(0, "p"));
      PlainCss(root) && Facts(root, TOP)[f] == 2 && Facts(Built(root), TOP)[f] == 1
  {
    var m := Compound([Other(".a")]);
    var a, p := [m], Leaf(Decl(1, "p"));
    var root, one := [Rule([a, a], [p])], Rule([a], [p]);
    assert m.simples[0] == Other(".a") && Clean(a) == a;
    assert PlainNode(root[0]);
    LeafRuleFacts(a, p, TOP);
    assert Within(TOP, a).selector == Keys(a);
    RepeatedBuilt(root, one, a, p);
  }

  lemma LeafRuleFacts(a: Sequence, p: Node, e: Env)
    requires p.Leaf?
    ensures Facts([Rule([a], [p])], e) == NodeFacts(p, Within(e, a))
    ensures Facts([Rule([a, a], [p])], e) == NodeFacts(p, Within(e, a)) + NodeFacts(p, Within(e, a))
  {
    var one, two := Rule([a], [p]), Rule([a, a], [p]);
    FactsSnoc([], p, Within(e, a));
    SingleRuleFacts(a, [p], e);
    RuleFactsAppend([a], [a], [p], e);
    FactsSnoc([], one, e);
    FactsSnoc([], two, e);
    assert [] + [one] == [one] && [] + [two] == [two] && [] + [p] == [p] && [a] + [a] == [a, a];
  }

  lemma RepeatedBuilt(root: seq<Node>, one: Node, a: Sequence, p: Node)
    requires p.Leaf? && one == Rule([a], [p]) && root == [Rule([a, a], [p])] && PlainCss(root)
    requires |a| == 1 && Clean(a) == a && a[0].Compound? && |a[0].simples| == 1 && a[0].simples[0] != Parent
    ensures Built(root) == [one]
  {
    assert Expanded(root) == [one, one] by {
      assert [a, a][1..] == [a] && [a][1..] == [];
      assert ExpandRule([a], [p]) == [one];
      assert root[1..] == [];
    }
    ExpandedReady(root);
    TwiceNested(one, a, p);
    NestedReadyForRefs([one, one], false);
    OnceStays(one, a, p, ParentRefs);
    FoldsToItself(one, a, p);
  }

  lemma FoldsToItself(one: Node, a: Sequence, p: Node)
    requires p.Leaf? && one == Rule([a], [p])
    requires Ready(ParentRefs, [one], false)
    ensures RefsResolve([one], false) && Flattened([one], false) == [one]
    ensures OneSelectorEach([one]) && Folded([one]) == [one]
  {
    assert [p][1..] == [] && [one][1..] == [] && [] + [p] == [p] && [] + [one] == [one];
    MergedRefsResolve([one], false);
    assert NodeRefsResolve(one, false);
    assert Flattened([p], EndsInCompound(a)) == [p];
    RefsResolveOneSelector([one], false);
    assert OneSelector(one);
    assert FoldScan([p], Scan([], -1)) == FoldStep(p, Scan([], -1));
    assert Folded([p]) == [p];
    assert FoldStep(one, Scan([], -1)) == Scan([one], 0);
    assert FoldScan([one], Scan([], -1)) == FoldStep(one, Scan([], -1));
  }

  lemma OnceStays(one: Node, a: Sequence, p: Node, pass: Pass)
    requires p.Leaf? && one == Rule([a], [p])
    requires |a| == 1 && Clean(a) == a && a[0].Compound? && |a[0].simples| == 1 && a[0].simples[0] != Parent
    requires Ready(pass, [one], false)
    ensures Ready(pass, [p], true) && Merged(pass, [p], true) == [p]
    ensures Merged(pass, [one], false) == [one]
  {
    LeavesOnly(pass, p);
    assert ReadyNode(pass, one, false);
    if pass.ParentRefs? {
      assert a[0].simples[..1] == a[0].simples;
    }
    assert [one][1..] == [] && a == [a[0]];
    assert Head(pass, a) == a[0] && Remainder(pass, a) == [];
    assert MergeStep(pass, one, Scan([], -1), false).out == [one];
    assert MergeScan(pass, [one], Scan([], -1), false).out == [one];
    assert Uniq([one], {}) == [one];
    assert MergedNode(pass, one, false) == one;
    assert MergedEach(pass, [one], false) == [one];
  }

  // A list of one leaf, and of the same leaf twice.
  lemma LeavesOnly(pass: Pass, p: Node)
    requires p.Leaf?
    ensures Ready(pass, [p], true) && Merged(pass, [p], true) == [p]
    ensures Ready(pass, [p, p], true) && Merged(pass, [p, p], true) == [p]
  {
    assert ReadyNode(pass, p, true);
    assert [p][1..] == [] && [p, p][1..] == [p] && [p] + [p] == [p, p];
    var st := Scan([], -1);
    assert MergeStep(pass, p, st, true) == Scan([p], -1);
    assert MergeScan(pass, [p], st, true) == Scan([p], -1);
    assert MergeScan(pass, [p], Scan([p], -1), true) == Scan([p, p], -1);
    assert MergeScan(pass, [p, p], st, true) == Scan([p, p], -1);
    assert Uniq([p], {}) == [p] && Uniq([p], {p.decl}) == [] && Uniq([p, p], {}) == [p];
    assert MergedEach(pass, [p], true) == [p];
  }

  lemma TwiceNested(one: Node, a: Sequence, p: Node)
    requires p.Leaf? && one == Rule([a], [p])
    requires |a| == 1 && Clean(a) == a && a[0].Compound? && |a[0].simples| == 1 && a[0].simples[0] != Parent
    requires Ready(NestSeqs, [one, one], false)
    ensures Merged(NestSeqs, [one, one], false) == [one]
  {
    LeavesOnly(NestSeqs, p);
    assert ReadyNode(NestSeqs, one, false);
    var both := Rule([a], [p, p]);
    assert [one, one][1..] == [one] && [one][1..] == [] && [both][1..] == [] && a == [a[0]];
    assert Head(NestSeqs, a) == a[0] && Remainder(NestSeqs, a) == [];
    assert MergeStep(NestSeqs, one, Scan([], -1), false) == Scan([one], 0);
    assert [p] + [p] == [p, p];
    assert MergeStep(NestSeqs, one, Scan([one], 0), false) == Scan([both], 0);
    assert MergeScan(NestSeqs, [one], Scan([one], 0), false) == Scan([both], 0);
    assert MergeScan(NestSeqs, [one, one], Scan([], -1), false) == Scan([both], 0);
    assert Uniq([both], {}) == [both];
    assert MergedNode(NestSeqs, both, false) == one;
    assert MergedEach(NestSeqs, [both], false) == [one];
  }
}
