// How many facts a merging pass loses: one for every node that uniq! takes out.
module DropCount {
  import opened Selectors
  import opened StyleTree
  import opened MergePass

  /* What uniq! takes out of all the lists of a pass: in the directives that the loop
     descends into, in this list, and below what is left of it. */
  ghost function Dropped(p: Pass, ns: seq<Node>, under: bool): nat
    requires Ready(p, ns, under)
    decreases Weight(p, ns), 3
  {
    var scan := MergeScan(p, ns, Scan([], -1), under).out;
    WeightUniq(p, scan, {});
    DroppedInLoop(p, ns, under) + (|scan| - |Uniq(scan, {})|) + DroppedBelow(p, Uniq(scan, {}), under)
  }

  ghost function DroppedInLoop(p: Pass, ns: seq<Node>, under: bool): nat
    requires Ready(p, ns, under)
    decreases Weight(p, ns), 2, |ns|
  {
    if ns == [] then 0
    else
      assert ReadyNode(p, ns[0], under);
      (if ns[0].Directive? then DroppedIn(p, ns[0], under) else 0) + DroppedInLoop(p, ns[1..], under)
  }

  ghost function DroppedBelow(p: Pass, ns: seq<Node>, under: bool): nat
    requires Ready(p, ns, under)
    decreases Weight(p, ns), 2, |ns|
  {
    if ns == [] then 0
    else
      assert ReadyNode(p, ns[0], under);
      DroppedIn(p, ns[0], under) + DroppedBelow(p, ns[1..], under)
  }

  ghost function DroppedIn(p: Pass, n: Node, under: bool): nat
    requires ReadyNode(p, n, under)
    decreases NodeWeight(p, n), 1
  {
    match n
    case Leaf(_) => 0
    case Directive(_, kids) => Dropped(p, kids, under)
    case Rule(sels, kids) => Dropped(p, kids, EndsInCompound(Clean(sels[0])))
  }

  lemma {:induction false} UniqCount(ns: seq<Node>, seen: set<Decl>, e: Env)
    ensures |Facts(ns, e)| == |Facts(Uniq(ns, seen), e)| + (|ns| - |Uniq(ns, seen)|)
  {
    if ns != [] {
      var n, tail := ns[0], ns[1..];
      var seen' := if n.Leaf? then seen + {n.decl} else seen;
      UniqCount(tail, seen, e);
      UniqCount(tail, seen', e);
      assert ([n] + Uniq(tail, seen'))[1..] == Uniq(tail, seen');
    }
  }

  /** A pass loses as many facts as uniq! takes out nodes. */
  lemma {:induction false} MergedCount(p: Pass, ns: seq<Node>, under: bool, e: Env)
    requires Ready(p, ns, under)
    ensures |Facts(ns, e)| == |Facts(Merged(p, ns, under), e)| + Dropped(p, ns, under)
    decreases Weight(p, ns), 3
  {
    var scan := MergeScan(p, ns, Scan([], -1), under).out;
    LoopCount(p, ns, Scan([], -1), under, e);
    UniqCount(scan, {}, e);
    WeightUniq(p, scan, {});
    BelowCount(p, Uniq(scan, {}), under, e);
  }

  lemma {:induction false} LoopCount(p: Pass, ns: seq<Node>, st: Scan, under: bool, e: Env)
    requires Ready(p, ns, under) && ScanReady(p, st, under)
    ensures |Facts(st.out, e)| + |Facts(ns, e)| == |Facts(MergeScan(p, ns, st, under).out, e)| + DroppedInLoop(p, ns, under)
    decreases Weight(p, ns), 2, |ns|
  {
    if ns != [] {
      assert ReadyNode(p, ns[0], under);
      StepCount(p, ns[0], st, under, e);
      LoopCount(p, ns[1..], MergeStep(p, ns[0], st, under), under, e);
    }
  }

  lemma {:induction false} StepCount(p: Pass, n: Node, st: Scan, under: bool, e: Env)
    requires ReadyNode(p, n, under) && ScanReady(p, st, under)
    ensures |Facts(st.out, e)| + |NodeFacts(n, e)| ==
      |Facts(MergeStep(p, n, st, under).out, e)| + if n.Directive? then DroppedIn(p, n, under) else 0
    decreases NodeWeight(p, n), 1
  {
    match n
    case Leaf(_) =>
      FactsSnoc(st.out, n, e);
    case Directive(h, kids) =>
      MergedCount(p, kids, under, Under(e, h));
      FactsSnoc(st.out, Directive(h, Merged(p, kids, under)), e);
    case Rule(sels, kids) =>
      assert Rule([sels[0]], kids) == n;
      MergeRuleFacts(p, st, sels[0], kids, under, e);
  }

  lemma {:induction false} BelowCount(p: Pass, ns: seq<Node>, under: bool, e: Env)
    requires Ready(p, ns, under)
    ensures |Facts(ns, e)| == |Facts(MergedEach(p, ns, under), e)| + DroppedBelow(p, ns, under)
    decreases Weight(p, ns), 2, |ns|
  {
    if ns != [] {
      assert ReadyNode(p, ns[0], under);
      NodeCount(p, ns[0], under, e);
      BelowCount(p, ns[1..], under, e);
      var m, tail := MergedNode(p, ns[0], under), MergedEach(p, ns[1..], under);
      assert ([m] + tail)[1..] == tail;
    }
  }

  lemma {:induction false} NodeCount(p: Pass, n: Node, under: bool, e: Env)
    requires ReadyNode(p, n, under)
    ensures |NodeFacts(n, e)| == |NodeFacts(MergedNode(p, n, under), e)| + DroppedIn(p, n, under)
    decreases NodeWeight(p, n), 1
  {
    hide RuleFacts, Within, Clean, EndsInCompound;
    match n
    case Leaf(_) =>
    case Directive(h, kids) =>
      MergedCount(p, kids, under, Under(e, h));
    case Rule(sels, kids) =>
      var inner := EndsInCompound(Clean(sels[0]));
      MergedCount(p, kids, inner, Within(e, sels[0]));
      RuleCount(sels[0], kids, Merged(p, kids, inner), Dropped(p, kids, inner), e);
      assert sels == [sels[0]];
  }

  lemma RuleCount(s: Sequence, kids: seq<Node>, less: seq<Node>, dropped: nat, e: Env)
    requires |Facts(kids, Within(e, s))| == |Facts(less, Within(e, s))| + dropped
    ensures |NodeFacts(Rule([s], kids), e)| == |NodeFacts(Rule([s], less), e)| + dropped
  {
    SingleRuleFacts(s, kids, e);
    SingleRuleFacts(s, less, e);
  }
}
