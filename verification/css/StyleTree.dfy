// Stylesheet trees and what they mean: the facts "this declaration applies to this
// selector under these directives".
module StyleTree {
  import opened Selectors

  // A declaration or comment node. Two nodes are the same object when the ids agree
  // as well; the text is what is printed.
  datatype Decl = Decl(id: nat, text: string)

  datatype Node =
    | Leaf(decl: Decl)
    | Rule(sels: seq<Sequence>, children: seq<Node>)
    | Directive(header: string, children: seq<Node>)

  datatype Fact = Fact(directives: seq<string>, selector: seq<Key>, decl: Decl)

  // Where a list of nodes stands: under which directives, inside a rule selecting what.
  // `ids` says whether facts tell apart declarations with the same text.
  datatype Env = Env(ids: bool, directives: seq<string>, selector: seq<Key>)

  function Within(e: Env, s: Sequence): Env {
    e.(selector := Resolve(e.selector, Clean(s)))
  }

  function Under(e: Env, header: string): Env {
    e.(directives := e.directives + [header])
  }

  /** The meaning of a list of nodes. A rule contributes what its children contribute,
      once for each of its selectors. */
  function Facts(ns: seq<Node>, e: Env): multiset<Fact>
    decreases ns, 0
  {
    if ns == [] then multiset{} else NodeFacts(ns[0], e) + Facts(ns[1..], e)
  }

  function NodeFacts(n: Node, e: Env): multiset<Fact>
    decreases n, 2
  {
    match n
    case Leaf(d) => multiset{Fact(e.directives, e.selector, if e.ids then d else Decl(0, d.text))}
    case Directive(h, kids) => Facts(kids, Under(e, h))
    case Rule(sels, kids) => RuleFacts(sels, kids, e)
  }

  function RuleFacts(sels: seq<Sequence>, kids: seq<Node>, e: Env): multiset<Fact>
    decreases kids, 1, |sels|
  {
    if sels == [] then multiset{} else Facts(kids, Within(e, sels[0])) + RuleFacts(sels[1..], kids, e)
  }

  lemma {:induction false} FactsAppend(a: seq<Node>, b: seq<Node>, e: Env)
    ensures Facts(a + b, e) == Facts(a, e) + Facts(b, e)
  {
    if a == [] {
      assert a + b == b;
    } else {
      assert (a + b)[1..] == a[1..] + b;
      FactsAppend(a[1..], b, e);
    }
  }

  lemma FactsSnoc(a: seq<Node>, n: Node, e: Env)
    ensures Facts(a + [n], e) == Facts(a, e) + NodeFacts(n, e)
  {
    FactsAppend(a, [n], e);
    assert [n][1..] == [];
  }

  // Exchanging one node changes the meaning by that node's meaning.
  lemma FactsUpdate(a: seq<Node>, i: nat, n: Node, e: Env)
    requires i < |a|
    ensures NodeFacts(a[i], e) <= Facts(a, e)
    ensures Facts(a[i := n], e) == Facts(a, e) - NodeFacts(a[i], e) + NodeFacts(n, e)
  {
    assert a == a[..i] + [a[i]] + a[i + 1..];
    assert a[i := n] == a[..i] + [n] + a[i + 1..];
    FactsAppend(a[..i] + [a[i]], a[i + 1..], e);
    FactsAppend(a[..i] + [n], a[i + 1..], e);
    FactsSnoc(a[..i], a[i], e);
    FactsSnoc(a[..i], n, e);
  }

  lemma RuleFactsAppend(a: seq<Sequence>, b: seq<Sequence>, kids: seq<Node>, e: Env)
    ensures RuleFacts(a + b, kids, e) == RuleFacts(a, kids, e) + RuleFacts(b, kids, e)
  {
    if a == [] {
      assert a + b == b;
    } else {
      assert (a + b)[1..] == a[1..] + b;
      RuleFactsAppend(a[1..], b, kids, e);
    }
  }

  lemma SingleRuleFacts(s: Sequence, kids: seq<Node>, e: Env)
    ensures NodeFacts(Rule([s], kids), e) == Facts(kids, Within(e, s))
  {
    assert NodeFacts(Rule([s], kids), e) == RuleFacts([s], kids, e);
    assert RuleFacts([s][1..], kids, e) == multiset{};
  }

  /** a says the same as b, only some facts fewer times. */
  ghost predicate Thinned(a: multiset<Fact>, b: multiset<Fact>) {
    a <= b && forall f :: f in b ==> f in a
  }

  lemma ThinnedSum(a: multiset<Fact>, b: multiset<Fact>, c: multiset<Fact>, d: multiset<Fact>)
    requires Thinned(a, b) && Thinned(c, d)
    ensures Thinned(a + c, b + d)
  {
  }

  // No declaration object stands twice under the same directives and selector.
  ghost predicate NoRepeats(ns: seq<Node>, e: Env) {
    forall f :: Facts(ns, e)[f] <= 1
  }

  lemma NoRepeatsSplit(ns: seq<Node>, e: Env)
    requires ns != [] && NoRepeats(ns, e)
    ensures NoRepeats(ns[1..], e)
    ensures forall f :: NodeFacts(ns[0], e)[f] <= 1
  {
    forall f ensures Facts(ns[1..], e)[f] <= 1 && NodeFacts(ns[0], e)[f] <= 1 {
      assert Facts(ns, e)[f] <= 1;
    }
  }

  // In a list without repeats the children of a rule or directive do not repeat either.
  lemma NoRepeatsChild(ns: seq<Node>, e: Env)
    requires ns != [] && NoRepeats(ns, e) && !ns[0].Leaf?
    requires ns[0].Rule? ==> |ns[0].sels| == 1
    ensures NoRepeats(ns[0].children, if ns[0].Rule? then Within(e, ns[0].sels[0]) else Under(e, ns[0].header))
  {
    NoRepeatsSplit(ns, e);
    var e' := if ns[0].Rule? then Within(e, ns[0].sels[0]) else Under(e, ns[0].header);
    if ns[0].Rule? {
      assert ns[0] == Rule([ns[0].sels[0]], ns[0].children);
      SingleRuleFacts(ns[0].sels[0], ns[0].children, e);
    }
    assert Facts(ns[0].children, e') == NodeFacts(ns[0], e);
  }

  /* uniq!: a node object is kept where it occurs first. Only leaves can occur twice,
     when a comma-separated rule was expanded and its parts were merged again. */
  function Uniq(ns: seq<Node>, seen: set<Decl>): (r: seq<Node>)
    ensures |r| <= |ns|
    ensures forall n :: n in r ==> n in ns
  {
    if ns == [] then []
    else if ns[0].Leaf? && ns[0].decl in seen then Uniq(ns[1..], seen)
    else [ns[0]] + Uniq(ns[1..], if ns[0].Leaf? then seen + {ns[0].decl} else seen)
  }

  // Dropping repeated objects loses no fact, and nothing at all where none repeats.
  lemma {:induction false} UniqFacts(ns: seq<Node>, seen: set<Decl>, e: Env)
    ensures Facts(Uniq(ns, seen), e) <= Facts(ns, e)
    ensures forall f :: f in Facts(ns, e) ==>
      f in Facts(Uniq(ns, seen), e) || exists d :: d in seen && f in NodeFacts(Leaf(d), e)
  {
    if ns != [] {
      var n, tail := ns[0], ns[1..];
      if n.Leaf? && n.decl in seen {
        UniqFacts(tail, seen, e);
      } else {
        var seen' := if n.Leaf? then seen + {n.decl} else seen;
        UniqFacts(tail, seen', e);
        assert ([n] + Uniq(tail, seen'))[1..] == Uniq(tail, seen');
      }
    }
  }

  lemma NotAgain(ns: seq<Node>, e: Env)
    requires e.ids && ns != [] && ns[0].Leaf? && NoRepeats(ns, e)
    ensures ns[0] !in ns[1..]
  {
    var f := Fact(e.directives, e.selector, ns[0].decl);
    if ns[0] in ns[1..] {
      LeafFact(ns[1..], ns[0].decl, e);
      assert Facts(ns, e)[f] <= 1;
    }
  }

  lemma {:induction false} UniqKeepsAll(ns: seq<Node>, seen: set<Decl>, e: Env)
    requires e.ids && NoRepeats(ns, e)
    requires forall d :: d in seen ==> Leaf(d) !in ns
    ensures Uniq(ns, seen) == ns
  {
    if ns != [] {
      var n, tail := ns[0], ns[1..];
      var seen' := if n.Leaf? then seen + {n.decl} else seen;
      NoRepeatsSplit(ns, e);
      if n.Leaf? {
        NotAgain(ns, e);
      }
      assert forall d :: d in seen ==> Leaf(d) !in tail by {
        assert forall m :: m in tail ==> m in ns;
      }
      UniqKeepsAll(tail, seen', e);
    }
  }

  lemma {:induction false} LeafFact(ns: seq<Node>, d: Decl, e: Env)
    requires e.ids && Leaf(d) in ns
    ensures Fact(e.directives, e.selector, d) in Facts(ns, e)
  {
    if ns[0] != Leaf(d) {
      LeafFact(ns[1..], d, e);
    }
  }

  // What the two nesting passes leave of `ns`, before they descend.
  lemma UniqThins(ns: seq<Node>, e: Env)
    ensures Thinned(Facts(Uniq(ns, {}), e), Facts(ns, e))
    ensures NoRepeats(ns, e.(ids := true)) ==> Uniq(ns, {}) == ns
  {
    UniqFacts(ns, {}, e);
    if NoRepeats(ns, e.(ids := true)) {
      UniqKeepsAll(ns, {}, e.(ids := true));
    }
  }

  // Running state of a merging pass: the nodes so far and where the current rule is.
  datatype Scan = Scan(out: seq<Node>, current: int) {
    predicate Valid() {
      -1 <= current < |out| &&
      (0 <= current ==> out[current].Rule? && |out[current].sels| == 1)
    }
  }

  // `kids` become children of the current rule, or of a new rule for `head`.
  function Attach(st: Scan, reuse: bool, head: Sequence, kids: seq<Node>): (r: Scan)
    requires st.Valid() && (reuse ==> 0 <= st.current)
    ensures r.Valid() && 0 <= r.current
  {
    if reuse then
      var rule := st.out[st.current];
      Scan(st.out[st.current := Rule(rule.sels, rule.children + kids)], st.current)
    else
      Scan(st.out + [Rule([head], kids)], |st.out|)
  }

  lemma AttachFacts(st: Scan, reuse: bool, head: Sequence, kids: seq<Node>, e: Env)
    requires st.Valid() && (reuse ==> 0 <= st.current)
    requires reuse ==> Within(e, st.out[st.current].sels[0]) == Within(e, head)
    ensures Facts(Attach(st, reuse, head, kids).out, e) == Facts(st.out, e) + Facts(kids, Within(e, head))
  {
    if reuse {
      var rule := st.out[st.current];
      var s := rule.sels[0];
      assert rule == Rule([s], rule.children);
      FactsUpdate(st.out, st.current, Rule(rule.sels, rule.children + kids), e);
      SingleRuleFacts(s, rule.children, e);
      SingleRuleFacts(s, rule.children + kids, e);
      FactsAppend(rule.children, kids, Within(e, s));
    } else {
      FactsSnoc(st.out, Rule([head], kids), e);
      SingleRuleFacts(head, kids, e);
    }
  }
}
