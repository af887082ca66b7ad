// nest_seqs and parent_ref_rules. Both walk over a list of nodes with a current rule:
// a rule whose selector starts like the current one becomes part of it, any other
// starts a new current rule. They differ in what the start of a selector is.
module MergePass {
  import opened Selectors
  import opened StyleTree

  // NestSeqs splits `a b c` into `a` and `b c`; ParentRefs splits `a.b.c` into `a` and
  // `&.b.c`, and `&.b.c` into `&.b` and `&.c`.
  datatype Pass = NestSeqs | ParentRefs

  // A member of a plain CSS selector: no "&", and no empty compound.
  predicate Plain(m: Member) {
    m.Compound? ==> m.simples != [] && Parent !in m.simples
  }

  lemma PlainNotLed(m: Member)
    requires Plain(m)
    ensures !ParentLed(m)
  {
    assert m.Compound? ==> m.simples[0] in m.simples;
  }

  // The selectors a pass meets. nest_seqs leaves single members for parent_ref_rules.
  predicate SelectorReady(p: Pass, s: Sequence)
    ensures SelectorReady(p, s) ==> Clean(s) != []
  {
    match p
    case NestSeqs => Clean(s) != [] && forall m :: m in s ==> Plain(m)
    case ParentRefs =>
      |s| == 1 && s[0] != NEWLINE &&
      (s[0].Compound? ==>
        s[0].simples != [] && Parent !in s[0].simples[1..] && (ParentLed(s[0]) ==> |s[0].simples| >= 2))
  }

  // One selector a rule, and an "&" only where the rule above (or, for the whole list,
  // `under`) ends in a compound it can continue.
  predicate Ready(p: Pass, ns: seq<Node>, under: bool) {
    forall n :: n in ns ==> ReadyNode(p, n, under)
  }

  predicate ReadyNode(p: Pass, n: Node, under: bool) {
    match n
    case Leaf(_) => true
    case Directive(_, kids) => Ready(p, kids, under)
    case Rule(sels, kids) =>
      |sels| == 1 && SelectorReady(p, sels[0]) &&
      (ParentLed(Clean(sels[0])[0]) ==> under) && Ready(p, kids, EndsInCompound(Clean(sels[0])))
  }

  predicate EndsInCompound(s: Sequence) {
    s != [] && s[|s| - 1].Compound?
  }

  // What a selector still has to lose in steps of the pass.
  function SelectorWeight(p: Pass, s: Sequence): (w: nat)
    ensures SelectorReady(p, s) ==> w >= 1
  {
    match p
    case NestSeqs => |Clean(s)|
    case ParentRefs =>
      if s == [] || s[0].Op? then 1 else if ParentLed(s[0]) then |s[0].simples| - 1 else |s[0].simples|
  }

  function Weight(p: Pass, ns: seq<Node>): nat
    decreases ns, 0
  {
    if ns == [] then 0 else NodeWeight(p, ns[0]) + Weight(p, ns[1..])
  }

  function NodeWeight(p: Pass, n: Node): nat
    decreases n, 1
  {
    match n
    case Leaf(_) => 0
    case Directive(_, kids) => 1 + Weight(p, kids)
    case Rule(sels, kids) => (if sels == [] then 1 else SelectorWeight(p, sels[0])) + Weight(p, kids)
  }

  lemma {:induction false} WeightAppend(p: Pass, a: seq<Node>, b: seq<Node>)
    ensures Weight(p, a + b) == Weight(p, a) + Weight(p, b)
  {
    if a == [] {
      assert a + b == b;
    } else {
      assert (a + b)[1..] == a[1..] + b;
      WeightAppend(p, a[1..], b);
    }
  }

  lemma WeightSnoc(p: Pass, a: seq<Node>, n: Node)
    ensures Weight(p, a + [n]) == Weight(p, a) + NodeWeight(p, n)
  {
    WeightAppend(p, a, [n]);
    assert Weight(p, [n][1..]) == 0;
  }

  lemma WeightUpdate(p: Pass, a: seq<Node>, i: nat, n: Node)
    requires i < |a|
    ensures Weight(p, a[i := n]) == Weight(p, a) - NodeWeight(p, a[i]) + NodeWeight(p, n)
  {
    assert a == a[..i] + [a[i]] + a[i + 1..];
    assert a[i := n] == a[..i] + [n] + a[i + 1..];
    WeightAppend(p, a[..i] + [a[i]], a[i + 1..]);
    WeightAppend(p, a[..i] + [n], a[i + 1..]);
    WeightSnoc(p, a[..i], a[i]);
    WeightSnoc(p, a[..i], n);
  }

  lemma {:induction false} WeightUniq(p: Pass, ns: seq<Node>, seen: set<Decl>)
    ensures Weight(p, Uniq(ns, seen)) <= Weight(p, ns)
  {
    if ns != [] {
      var seen' := if ns[0].Leaf? then seen + {ns[0].decl} else seen;
      WeightUniq(p, ns[1..], seen);
      WeightUniq(p, ns[1..], seen');
      assert ([ns[0]] + Uniq(ns[1..], seen'))[1..] == Uniq(ns[1..], seen');
    }
  }

  // ---- One rule of the loop -------------------------------------------------------

  // parent_ref_rules leaves rules alone that start with a combinator.
  predicate Merges(p: Pass, s: Sequence)
    requires SelectorReady(p, s)
  {
    p.ParentRefs? ==> s[0].Compound?
  }

  // The first simple selector, with the "&" before it if there is one.
  function Firsts(simples: seq<Simple>): nat
    requires simples != [] && (simples[0] == Parent ==> |simples| >= 2)
  {
    if simples[0] == Parent then 2 else 1
  }

  // How the selector starts, as the one member that the current rule gets.
  function Head(p: Pass, s: Sequence): Member
    requires SelectorReady(p, s) && Merges(p, s)
  {
    match p
    case NestSeqs => Clean(s)[0]
    case ParentRefs => Compound(s[0].simples[..Firsts(s[0].simples)])
  }

  // The selector of the rule nested below it, if anything remains.
  function Remainder(p: Pass, s: Sequence): Sequence
    requires SelectorReady(p, s) && Merges(p, s)
  {
    match p
    case NestSeqs => Clean(s)[1..]
    case ParentRefs =>
      var rest := s[0].simples[Firsts(s[0].simples)..];
      if rest == [] then [] else [Compound([Parent] + rest)]
  }

  // nest_seqs compares compounds as selectors, parent_ref_rules as lists.
  predicate Starts(p: Pass, current: Member, head: Member) {
    match p
    case NestSeqs => Same(current, head)
    case ParentRefs => current == head
  }

  function Below(rest: Sequence, kids: seq<Node>): seq<Node> {
    if rest == [] then kids else [Rule([rest], kids)]
  }

  lemma SplitReady(p: Pass, s: Sequence, kids: seq<Node>, under: bool)
    requires ReadyNode(p, Rule([s], kids), under) && Merges(p, s)
    ensures SelectorReady(p, [Head(p, s)])
    ensures ParentLed(Head(p, s)) ==> under
    ensures Ready(p, Below(Remainder(p, s), kids), Head(p, s).Compound?)
    ensures 1 + Weight(p, Below(Remainder(p, s), kids)) == NodeWeight(p, Rule([s], kids))
    ensures SelectorWeight(p, [Head(p, s)]) == 1
  {
    var head, rest := Head(p, s), Remainder(p, s);
    SplitParts(p, s);
    hide Head, Remainder, SelectorWeight, EndsInCompound;
    if rest != [] {
      assert ReadyNode(p, Rule([rest], kids), head.Compound?);
      assert Weight(p, [Rule([rest], kids)][1..]) == 0;
    }
  }

  lemma SplitParts(p: Pass, s: Sequence)
    requires SelectorReady(p, s) && Merges(p, s)
    ensures
      var head, rest := Head(p, s), Remainder(p, s);
      SelectorReady(p, [head]) && SelectorWeight(p, [head]) == 1 && (ParentLed(head) ==> ParentLed(Clean(s)[0])) &&
      if rest == [] then SelectorWeight(p, s) == 1 && EndsInCompound(Clean(s)) == head.Compound?
      else
        SelectorReady(p, rest) && SelectorWeight(p, s) == 1 + SelectorWeight(p, rest) &&
        EndsInCompound(Clean(rest)) == EndsInCompound(Clean(s)) && (ParentLed(Clean(rest)[0]) ==> head.Compound?)
  {
    var head, rest := Head(p, s), Remainder(p, s);
    if p.NestSeqs? {
      CleanParts(s);
      PlainNotLed(head);
      if rest != [] {
        PlainNotLed(rest[0]);
      }
    } else {
      assert Clean(s) == s;
    }
  }

  lemma CleanParts(s: Sequence)
    requires Clean(s) != []
    ensures
      var head, rest := Clean(s)[0], Clean(s)[1..];
      head in Clean(s) && (forall m :: m in rest ==> m in Clean(s)) &&
      Clean([head]) == [head] && Clean(rest) == rest && [head] + rest == Clean(s)
  {
  }

  lemma SplitFacts(p: Pass, s: Sequence, kids: seq<Node>, e: Env)
    requires SelectorReady(p, s) && Merges(p, s)
    ensures Facts(Below(Remainder(p, s), kids), Within(e, [Head(p, s)])) == Facts(kids, Within(e, s))
  {
    var head, rest := Head(p, s), Remainder(p, s);
    ResolveParts(p, s, e.selector);
    hide Head, Remainder, Resolve;
    if rest != [] {
      SingleRuleFacts(rest, kids, Within(e, [head]));
      assert Facts([Rule([rest], kids)][1..], Within(e, [head])) == multiset{};
    }
  }

  // The head and the remainder below it select what the selector does.
  lemma ResolveParts(p: Pass, s: Sequence, parent: seq<Key>)
    requires SelectorReady(p, s) && Merges(p, s)
    ensures
      var head, rest := Head(p, s), Remainder(p, s);
      Clean([head]) == [head] && Clean(rest) == rest &&
      if rest == [] then [head] == Clean(s) else Resolve(Resolve(parent, [head]), rest) == Resolve(parent, Clean(s))
  {
    match p
    case NestSeqs => NestParts(s, parent);
    case ParentRefs => RefParts(s, parent);
  }

  lemma NestParts(s: Sequence, parent: seq<Key>)
    requires SelectorReady(NestSeqs, s)
    ensures
      var head, rest := Clean(s)[0], Clean(s)[1..];
      Clean([head]) == [head] && Clean(rest) == rest && [head] + rest == Clean(s) &&
      (rest != [] ==> Resolve(Resolve(parent, [head]), rest) == Resolve(parent, Clean(s)))
  {
    hide Resolve, Clean;
    var head, rest := Clean(s)[0], Clean(s)[1..];
    CleanParts(s);
    PlainNotLed(head);
    if rest != [] {
      PlainNotLed(rest[0]);
      ResolveSplit(parent, head, rest);
    }
  }

  lemma RefParts(s: Sequence, parent: seq<Key>)
    requires SelectorReady(ParentRefs, s) && Merges(ParentRefs, s)
    ensures
      var head, rest := Head(ParentRefs, s), Remainder(ParentRefs, s);
      Clean(s) == s && Clean([head]) == [head] && Clean(rest) == rest &&
      if rest == [] then [head] == s else Resolve(Resolve(parent, [head]), rest) == Resolve(parent, s)
  {
    hide Resolve;
    var head, rest := Head(ParentRefs, s), Remainder(ParentRefs, s);
    assert Clean(s) == s && Clean([head]) == [head] && Clean(rest) == rest;
    if rest == [] {
      assert s[0].simples[..Firsts(s[0].simples)] == s[0].simples;
    } else {
      ResolveJoin(parent, [head], rest);
      var more := s[0].simples[Firsts(s[0].simples)..];
      assert ([Parent] + more)[1..] == more;
      assert head.simples + more == s[0].simples;
      assert Join([head], rest) == s;
    }
  }

  // ---- The loop -------------------------------------------------------------------

  ghost predicate ScanReady(p: Pass, st: Scan, under: bool) {
    st.Valid() && Ready(p, st.out, under) &&
    (0 <= st.current ==> |st.out[st.current].sels[0]| == 1 && NEWLINE !in st.out[st.current].sels[0])
  }

  lemma AttachReady(p: Pass, st: Scan, reuse: bool, head: Member, kids: seq<Node>, under: bool)
    requires ScanReady(p, st, under) && SelectorReady(p, [head]) && head != NEWLINE
    requires (ParentLed(head) ==> under) && SelectorWeight(p, [head]) == 1
    requires Ready(p, kids, head.Compound?)
    requires reuse ==> 0 <= st.current && Starts(p, st.out[st.current].sels[0][0], head)
    ensures ScanReady(p, Attach(st, reuse, [head], kids), under)
    ensures Weight(p, Attach(st, reuse, [head], kids).out) <= Weight(p, st.out) + 1 + Weight(p, kids)
  {
    assert Clean([head]) == [head];
    if reuse {
      var rule := st.out[st.current];
      assert ReadyNode(p, rule, under);
      assert Clean(rule.sels[0]) == rule.sels[0];
      var grown := Rule(rule.sels, rule.children + kids);
      assert EndsInCompound(rule.sels[0]) == head.Compound?;
      assert Ready(p, rule.children, head.Compound?);
      assert ReadyNode(p, grown, under);
      WeightUpdate(p, st.out, st.current, grown);
      WeightAppend(p, rule.children, kids);
    } else {
      var added := Rule([[head]], kids);
      assert ReadyNode(p, added, under);
      WeightSnoc(p, st.out, added);
    }
  }

  ghost function MergeRule(p: Pass, st: Scan, s: Sequence, kids: seq<Node>, under: bool): (r: Scan)
    requires ScanReady(p, st, under) && ReadyNode(p, Rule([s], kids), under)
    ensures ScanReady(p, r, under)
    ensures Weight(p, r.out) <= Weight(p, st.out) + NodeWeight(p, Rule([s], kids))
  {
    if !Merges(p, s) then
      WeightSnoc(p, st.out, Rule([s], kids));
      Scan(st.out + [Rule([s], kids)], st.current)
    else
      var head, below := Head(p, s), Below(Remainder(p, s), kids);
      var reuse := 0 <= st.current && Starts(p, st.out[st.current].sels[0][0], head);
      SplitReady(p, s, kids, under);
      AttachReady(p, st, reuse, head, below, under);
      Attach(st, reuse, [head], below)
  }

  lemma MergeRuleFacts(p: Pass, st: Scan, s: Sequence, kids: seq<Node>, under: bool, e: Env)
    requires ScanReady(p, st, under) && ReadyNode(p, Rule([s], kids), under)
    ensures Facts(MergeRule(p, st, s, kids, under).out, e) == Facts(st.out, e) + NodeFacts(Rule([s], kids), e)
  {
    if !Merges(p, s) {
      FactsSnoc(st.out, Rule([s], kids), e);
    } else {
      var head, below := Head(p, s), Below(Remainder(p, s), kids);
      var reuse := 0 <= st.current && Starts(p, st.out[st.current].sels[0][0], head);
      SplitReady(p, s, kids, under);
      if reuse {
        var current := st.out[st.current].sels[0];
        assert ReadyNode(p, st.out[st.current], under);
        assert Clean(current) == current == [current[0]] && Clean([head]) == [head];
        if p.NestSeqs? {
          PlainNotLed(current[0]);
          PlainNotLed(head);
          ResolveSameHead(e.selector, current[0], head);
        }
      }
      AttachFacts(st, reuse, [head], below, e);
      SplitFacts(p, s, kids, e);
      SingleRuleFacts(s, kids, e);
    }
  }

  // One turn of the loop.
  ghost function MergeStep(p: Pass, n: Node, st: Scan, under: bool): (r: Scan)
    requires ReadyNode(p, n, under) && ScanReady(p, st, under)
    ensures ScanReady(p, r, under)
    ensures Weight(p, r.out) <= Weight(p, st.out) + NodeWeight(p, n)
    decreases NodeWeight(p, n), 0
  {
    match n
    case Leaf(_) =>
      WeightSnoc(p, st.out, n);
      Scan(st.out + [n], st.current)
    case Directive(h, kids) =>
      var d := Directive(h, Merged(p, kids, under));
      WeightSnoc(p, st.out, d);
      Scan(st.out + [d], st.current)
    case Rule(sels, kids) =>
      assert Rule([sels[0]], kids) == n;
      MergeRule(p, st, sels[0], kids, under)
  }

  ghost function MergeScan(p: Pass, ns: seq<Node>, st: Scan, under: bool): (r: Scan)
    requires Ready(p, ns, under) && ScanReady(p, st, under)
    ensures ScanReady(p, r, under)
    ensures Weight(p, r.out) <= Weight(p, st.out) + Weight(p, ns)
    decreases Weight(p, ns), 1, |ns|
  {
    if ns == [] then st
    else
      assert ReadyNode(p, ns[0], under);
      MergeScan(p, ns[1..], MergeStep(p, ns[0], st, under), under)
  }

  /** The pass on the children of a node: merge them, drop repeated objects, and go on
      below every child. */
  ghost function Merged(p: Pass, ns: seq<Node>, under: bool): (r: seq<Node>)
    requires Ready(p, ns, under)
    ensures Ready(p, r, under) && Weight(p, r) <= Weight(p, ns)
    decreases Weight(p, ns), 3
  {
    var scan := MergeScan(p, ns, Scan([], -1), under).out;
    WeightUniq(p, scan, {});
    MergedEach(p, Uniq(scan, {}), under)
  }

  ghost function MergedEach(p: Pass, ns: seq<Node>, under: bool): (r: seq<Node>)
    requires Ready(p, ns, under)
    ensures Ready(p, r, under) && Weight(p, r) <= Weight(p, ns)
    decreases Weight(p, ns), 2, |ns|
  {
    if ns == [] then []
    else
      assert ReadyNode(p, ns[0], under);
      var r := [MergedNode(p, ns[0], under)] + MergedEach(p, ns[1..], under);
      assert r[1..] == MergedEach(p, ns[1..], under);
      r
  }

  ghost function MergedNode(p: Pass, n: Node, under: bool): (r: Node)
    requires ReadyNode(p, n, under)
    ensures ReadyNode(p, r, under) && NodeWeight(p, r) <= NodeWeight(p, n)
    decreases NodeWeight(p, n), 1
  {
    match n
    case Leaf(_) => n
    case Directive(h, kids) => Directive(h, Merged(p, kids, under))
    case Rule(sels, kids) => Rule(sels, Merged(p, kids, EndsInCompound(Clean(sels[0]))))
  }

  // ---- Every fact is kept ---------------------------------------------------------

  /** Both passes keep the meaning: every fact stays and none is added. */
  lemma {:induction false} MergedFacts(p: Pass, ns: seq<Node>, under: bool, e: Env)
    requires Ready(p, ns, under)
    ensures Thinned(Facts(Merged(p, ns, under), e), Facts(ns, e))
    decreases Weight(p, ns), 3
  {
    var scan := MergeScan(p, ns, Scan([], -1), under).out;
    MergeScanFacts(p, ns, Scan([], -1), under, e);
    UniqThins(scan, e);
    WeightUniq(p, scan, {});
    MergedEachFacts(p, Uniq(scan, {}), under, e);
  }

  lemma {:induction false} MergeScanFacts(p: Pass, ns: seq<Node>, st: Scan, under: bool, e: Env)
    requires Ready(p, ns, under) && ScanReady(p, st, under)
    ensures Thinned(Facts(MergeScan(p, ns, st, under).out, e), Facts(st.out, e) + Facts(ns, e))
    decreases Weight(p, ns), 1, |ns|
  {
    if ns != [] {
      var n, tail := ns[0], ns[1..];
      assert ReadyNode(p, n, under);
      var st' := MergeStep(p, n, st, under);
      MergeStepFacts(p, n, st, under, e);
      MergeScanFacts(p, tail, st', under, e);
      ThinnedSum(Facts(st'.out, e), Facts(st.out, e) + NodeFacts(n, e), Facts(tail, e), Facts(tail, e));
      assert Facts(st.out, e) + NodeFacts(n, e) + Facts(tail, e) == Facts(st.out, e) + Facts(ns, e);
    }
  }

  lemma {:induction false} MergeStepFacts(p: Pass, n: Node, st: Scan, under: bool, e: Env)
    requires ReadyNode(p, n, under) && ScanReady(p, st, under)
    ensures Thinned(Facts(MergeStep(p, n, st, under).out, e), Facts(st.out, e) + NodeFacts(n, e))
    decreases NodeWeight(p, n), 0
  {
    match n
    case Leaf(_) =>
      FactsSnoc(st.out, n, e);
    case Directive(h, kids) =>
      MergedFacts(p, kids, under, Under(e, h));
      FactsSnoc(st.out, Directive(h, Merged(p, kids, under)), e);
    case Rule(sels, kids) =>
      assert Rule([sels[0]], kids) == n;
      MergeRuleFacts(p, st, sels[0], kids, under, e);
  }

  lemma {:induction false} MergedEachFacts(p: Pass, ns: seq<Node>, under: bool, e: Env)
    requires Ready(p, ns, under)
    ensures Thinned(Facts(MergedEach(p, ns, under), e), Facts(ns, e))
    decreases Weight(p, ns), 2, |ns|
  {
    if ns != [] {
      var n, tail := ns[0], ns[1..];
      assert ReadyNode(p, n, under);
      assert Weight(p, ns) == NodeWeight(p, n) + Weight(p, tail);
      MergedNodeFacts(p, n, under, e);
      MergedEachFacts(p, tail, under, e);
      var n', tail' := MergedNode(p, n, under), MergedEach(p, tail, under);
      assert MergedEach(p, ns, under) == [n'] + tail';
      ThinnedSum(NodeFacts(n', e), NodeFacts(n, e), Facts(tail', e), Facts(tail, e));
    }
  }

  lemma {:induction false} MergedNodeFacts(p: Pass, n: Node, under: bool, e: Env)
    requires ReadyNode(p, n, under)
    ensures Thinned(NodeFacts(MergedNode(p, n, under), e), NodeFacts(n, e))
    decreases NodeWeight(p, n), 1
  {
    match n
    case Leaf(_) =>
    case Directive(h, kids) =>
      MergedFacts(p, kids, under, Under(e, h));
    case Rule(sels, kids) =>
      var below := EndsInCompound(Clean(sels[0]));
      assert n == Rule([sels[0]], kids);
      MergedFacts(p, kids, below, Within(e, sels[0]));
      SingleRuleFacts(sels[0], kids, e);
      SingleRuleFacts(sels[0], Merged(p, kids, below), e);
  }

  // ---- Where nothing repeats, every fact is kept as often as it was there ------------

  lemma {:induction false} MergedExact(p: Pass, ns: seq<Node>, under: bool, e: Env)
    requires Ready(p, ns, under) && NoRepeats(ns, e.(ids := true))
    ensures Facts(Merged(p, ns, under), e) == Facts(ns, e)
    decreases Weight(p, ns), 3
  {
    var t := e.(ids := true);
    var scan := MergeScan(p, ns, Scan([], -1), under).out;
    MergeScanExact(p, ns, Scan([], -1), under, e);
    MergeScanExact(p, ns, Scan([], -1), under, t);
    assert Facts(scan, t) == Facts(ns, t);
    UniqThins(scan, e);
    WeightUniq(p, scan, {});
    MergedEachExact(p, scan, under, e);
  }

  lemma {:induction false} MergeScanExact(p: Pass, ns: seq<Node>, st: Scan, under: bool, e: Env)
    requires Ready(p, ns, under) && ScanReady(p, st, under) && NoRepeats(ns, e.(ids := true))
    ensures Facts(MergeScan(p, ns, st, under).out, e) == Facts(st.out, e) + Facts(ns, e)
    decreases Weight(p, ns), 1, |ns|
  {
    if ns != [] {
      assert ReadyNode(p, ns[0], under);
      MergeStepExact(p, ns, st, under, e);
      NoRepeatsSplit(ns, e.(ids := true));
      MergeScanExact(p, ns[1..], MergeStep(p, ns[0], st, under), under, e);
    }
  }

  lemma {:induction false} MergeStepExact(p: Pass, ns: seq<Node>, st: Scan, under: bool, e: Env)
    requires ns != [] && ReadyNode(p, ns[0], under) && ScanReady(p, st, under) && NoRepeats(ns, e.(ids := true))
    ensures Facts(MergeStep(p, ns[0], st, under).out, e) == Facts(st.out, e) + NodeFacts(ns[0], e)
    decreases Weight(p, ns), 0
  {
    var n := ns[0];
    assert Weight(p, ns) == NodeWeight(p, n) + Weight(p, ns[1..]);
    match n
    case Leaf(_) =>
      FactsSnoc(st.out, n, e);
    case Directive(h, kids) =>
      NoRepeatsChild(ns, e.(ids := true));
      MergedExact(p, kids, under, Under(e, h));
      FactsSnoc(st.out, Directive(h, Merged(p, kids, under)), e);
    case Rule(sels, kids) =>
      assert Rule([sels[0]], kids) == n;
      MergeRuleFacts(p, st, sels[0], kids, under, e);
  }

  lemma {:induction false} MergedEachExact(p: Pass, ns: seq<Node>, under: bool, e: Env)
    requires Ready(p, ns, under) && NoRepeats(ns, e.(ids := true))
    ensures Facts(MergedEach(p, ns, under), e) == Facts(ns, e)
    decreases Weight(p, ns), 2, |ns|
  {
    if ns != [] {
      var n, tail := ns[0], ns[1..];
      var t := e.(ids := true);
      assert ReadyNode(p, n, under);
      assert Weight(p, ns) == NodeWeight(p, n) + Weight(p, tail);
      NoRepeatsSplit(ns, t);
      match n {
        case Leaf(_) =>
        case Directive(h, kids) =>
          NoRepeatsChild(ns, t);
          MergedExact(p, kids, under, Under(e, h));
        case Rule(sels, kids) =>
          var below := EndsInCompound(Clean(sels[0]));
          NoRepeatsChild(ns, t);
          assert n == Rule([sels[0]], kids);
          MergedExact(p, kids, below, Within(e, sels[0]));
          SingleRuleFacts(sels[0], kids, e);
          SingleRuleFacts(sels[0], Merged(p, kids, below), e);
      }
      MergedEachExact(p, tail, under, e);
      assert MergedEach(p, ns, under) == [MergedNode(p, n, under)] + MergedEach(p, tail, under);
    }
  }

  // ---- nest_seqs leaves what parent_ref_rules needs -----------------------------------

  ghost predicate SingleMembers(ns: seq<Node>) {
    forall n :: n in ns && n.Rule? ==> |n.sels| == 1 && |n.sels[0]| == 1
  }

  lemma {:induction false} NestedSingleMembers(ns: seq<Node>, st: Scan, under: bool)
    requires Ready(NestSeqs, ns, under) && ScanReady(NestSeqs, st, under) && SingleMembers(st.out)
    ensures SingleMembers(MergeScan(NestSeqs, ns, st, under).out)
    decreases |ns|
  {
    if ns != [] {
      assert ReadyNode(NestSeqs, ns[0], under);
      NestedSingleMembers(ns[1..], MergeStep(NestSeqs, ns[0], st, under), under);
    }
  }

  lemma {:induction false} NestedReadyForRefs(ns: seq<Node>, under: bool)
    requires Ready(NestSeqs, ns, under)
    ensures Ready(ParentRefs, Merged(NestSeqs, ns, under), under)
    decreases Weight(NestSeqs, ns), 1
  {
    var scan := MergeScan(NestSeqs, ns, Scan([], -1), under).out;
    NestedSingleMembers(ns, Scan([], -1), under);
    WeightUniq(NestSeqs, scan, {});
    NestedEachReadyForRefs(Uniq(scan, {}), under);
  }

  lemma {:induction false} NestedEachReadyForRefs(ns: seq<Node>, under: bool)
    requires Ready(NestSeqs, ns, under) && SingleMembers(ns)
    ensures Ready(ParentRefs, MergedEach(NestSeqs, ns, under), under)
    decreases Weight(NestSeqs, ns), 0, |ns|
  {
    if ns != [] {
      var n, tail := ns[0], ns[1..];
      assert ReadyNode(NestSeqs, n, under);
      assert Weight(NestSeqs, ns) == NodeWeight(NestSeqs, n) + Weight(NestSeqs, tail);
      NestedEachReadyForRefs(tail, under);
      match n {
        case Leaf(_) =>
        case Directive(h, kids) =>
          NestedReadyForRefs(kids, under);
        case Rule(sels, kids) =>
          var s := sels[0];
          assert Clean(s) == s;
          PlainNotLed(s[0]);
          NestedReadyForRefs(kids, EndsInCompound(s));
      }
      var n' := MergedNode(NestSeqs, n, under);
      assert ReadyNode(ParentRefs, n', under);
      assert MergedEach(NestSeqs, ns, under) == [n'] + MergedEach(NestSeqs, tail, under);
    }
  }
}
