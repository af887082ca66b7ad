// What nest_seqs and parent_ref_rules leave: no selector can be taken apart any more and no two rules
// that follow one another start alike.
module MergedForm {
  import opened Selectors
  import opened StyleTree
  import opened MergePass

  // nest_seqs leaves single members; parent_ref_rules leaves single simple selectors, with an "&" or
  // without, and rules that start with a combinator.
  predicate TakenApart(p: Pass, n: Node) {
    n.Rule? && |n.sels| == 1 && |n.sels[0]| == 1 &&
    (p.ParentRefs? && n.sels[0][0].Compound? ==> |n.sels[0][0].simples| == if ParentLed(n.sels[0][0]) then 2 else 1)
  }

  // How the rules of a list start that the pass can merge.
  function StartsOf(p: Pass, ns: seq<Node>): seq<Member> {
    if ns == [] then []
    else
      var n := ns[|ns| - 1];
      StartsOf(p, ns[..|ns| - 1]) +
      if TakenApart(p, n) && (p.ParentRefs? ==> n.sels[0][0].Compound?) then [n.sels[0][0]] else []
  }

  // nest_seqs takes compounds for alike that select the same, parent_ref_rules those that are spelled
  // the same.
  ghost predicate NoneAlike(p: Pass, starts: seq<Member>) {
    forall i :: 0 <= i < |starts| - 1 ==> if p.NestSeqs? then !Same(starts[i], starts[i + 1]) else starts[i] != starts[i + 1]
  }

  /** At every depth the rules are taken apart and no two in a row start alike. */
  ghost predicate FullyMerged(p: Pass, ns: seq<Node>)
    decreases ns
  {
    NoneAlike(p, StartsOf(p, ns)) &&
    forall n :: n in ns && !n.Leaf? ==> FullyMerged(p, n.children) && (n.Rule? ==> TakenApart(p, n))
  }

  // ---- The loop ------------------------------------------------------------------------------------------

  ghost predicate AllApart(p: Pass, ns: seq<Node>) {
    forall n :: n in ns && n.Rule? ==> TakenApart(p, n)
  }

  // The current rule is the last one that can be merged.
  ghost predicate ScanForm(p: Pass, st: Scan) {
    st.Valid() && AllApart(p, st.out) && NoneAlike(p, StartsOf(p, st.out)) &&
    if st.current == -1 then StartsOf(p, st.out) == []
    else LastStart(p, st.out, st.current)
  }

  ghost predicate LastStart(p: Pass, ns: seq<Node>, i: int) {
    0 <= i < |ns| && StartsOf(p, ns[..i + 1]) == StartsOf(p, ns) != [] &&
    TakenApart(p, ns[i]) && (p.ParentRefs? ==> ns[i].sels[0][0].Compound?) &&
    StartsOf(p, ns)[|StartsOf(p, ns)| - 1] == ns[i].sels[0][0]
  }

  lemma StartsSnoc(p: Pass, ns: seq<Node>, n: Node)
    ensures StartsOf(p, ns + [n]) ==
      StartsOf(p, ns) + if TakenApart(p, n) && (p.ParentRefs? ==> n.sels[0][0].Compound?) then [n.sels[0][0]] else []
  {
    assert (ns + [n])[..|ns|] == ns;
  }

  // Only the selectors matter.
  lemma {:induction false} StartsSame(p: Pass, a: seq<Node>, b: seq<Node>)
    requires |a| == |b|
    requires forall k :: 0 <= k < |a| ==> a[k].Rule? == b[k].Rule? && (a[k].Rule? ==> a[k].sels == b[k].sels)
    ensures StartsOf(p, a) == StartsOf(p, b)
    decreases |a|
  {
    if a != [] {
      StartsSame(p, a[..|a| - 1], b[..|b| - 1]);
    }
  }

  lemma ApartSame(p: Pass, a: Node, b: Node)
    requires a.Rule? && b.Rule? && a.sels == b.sels
    ensures TakenApart(p, a) == TakenApart(p, b)
  {
  }

  // A node that is not merged with another one.
  lemma Passed(p: Pass, st: Scan, n: Node)
    requires ScanForm(p, st) && (n.Rule? ==> TakenApart(p, n) && p.ParentRefs? && !n.sels[0][0].Compound?)
    ensures ScanForm(p, Scan(st.out + [n], st.current))
  {
    hide NoneAlike;
    StartsSnoc(p, st.out, n);
    EmptyEnd(StartsOf(p, st.out));
    if st.current != -1 {
      assert (st.out + [n])[..st.current + 1] == st.out[..st.current + 1];
    }
  }

  lemma EmptyEnd<T>(a: seq<T>)
    ensures a + [] == a
  {
  }

  lemma Started(p: Pass, st: Scan, n: Node)
    requires ScanForm(p, st) && TakenApart(p, n) && (p.ParentRefs? ==> n.sels[0][0].Compound?)
    requires 0 <= st.current ==>
      if p.NestSeqs? then !Same(st.out[st.current].sels[0][0], n.sels[0][0]) else st.out[st.current].sels[0][0] != n.sels[0][0]
    ensures ScanForm(p, Scan(st.out + [n], |st.out|))
  {
    hide Same, StartsOf;
    StartsSnoc(p, st.out, n);
    var out := st.out + [n];
    assert out[..|st.out| + 1] == out;
  }

  lemma Grown(p: Pass, st: Scan, kids: seq<Node>)
    requires ScanForm(p, st) && 0 <= st.current
    ensures ScanForm(p, Scan(st.out[st.current := Rule(st.out[st.current].sels, kids)], st.current))
  {
    hide NoneAlike, TakenApart;
    var i := st.current;
    var n := Rule(st.out[i].sels, kids);
    var out := st.out[i := n];
    ApartSame(p, st.out[i], n);
    GrownSame(st.out, i, kids);
    StartsSame(p, st.out, out);
    StartsSame(p, st.out[..i + 1], out[..i + 1]);
  }

  lemma GrownSame(ns: seq<Node>, i: nat, kids: seq<Node>)
    requires i < |ns| && ns[i].Rule?
    ensures
      var out := ns[i := Rule(ns[i].sels, kids)];
      forall k :: 0 <= k < |ns| ==> ns[k].Rule? == out[k].Rule? && (ns[k].Rule? ==> ns[k].sels == out[k].sels)
  {
  }

  lemma HeadApart(p: Pass, s: Sequence, kids: seq<Node>)
    requires SelectorReady(p, s) && Merges(p, s)
    ensures TakenApart(p, Rule([[Head(p, s)]], kids)) && (p.ParentRefs? ==> Head(p, s).Compound?)
  {
  }

  lemma RuleForm(p: Pass, st: Scan, s: Sequence, kids: seq<Node>, under: bool)
    requires ScanReady(p, st, under) && ReadyNode(p, Rule([s], kids), under) && ScanForm(p, st)
    ensures ScanForm(p, MergeRule(p, st, s, kids, under))
  {
    hide ScanForm, ScanReady;
    if !Merges(p, s) {
      Passed(p, st, Rule([s], kids));
    } else {
      var head, below := Head(p, s), Below(Remainder(p, s), kids);
      HeadApart(p, s, below);
      Attached(p, st, head, below, under);
    }
  }

  lemma Attached(p: Pass, st: Scan, head: Member, below: seq<Node>, under: bool)
    requires ScanReady(p, st, under) && ScanForm(p, st)
    requires TakenApart(p, Rule([[head]], below)) && (p.ParentRefs? ==> head.Compound?)
    ensures ScanForm(p, Attach(st, 0 <= st.current && Starts(p, st.out[st.current].sels[0][0], head), [head], below))
  {
    hide ScanForm, TakenApart, Same;
    FormCurrent(p, st);
    if 0 <= st.current && Starts(p, st.out[st.current].sels[0][0], head) {
      Grown(p, st, st.out[st.current].children + below);
    } else {
      Started(p, st, Rule([[head]], below));
    }
  }

  lemma FormCurrent(p: Pass, st: Scan)
    requires ScanForm(p, st)
    ensures -1 <= st.current < |st.out| && (0 <= st.current ==> st.out[st.current].Rule?)
  {
  }

  lemma {:induction false} LoopForm(p: Pass, ns: seq<Node>, st: Scan, under: bool)
    requires Ready(p, ns, under) && ScanReady(p, st, under) && ScanForm(p, st)
    ensures ScanForm(p, MergeScan(p, ns, st, under))
    decreases |ns|
  {
    hide ScanForm, ScanReady, MergeStep;
    if ns != [] {
      assert ReadyNode(p, ns[0], under);
      StepForm(p, ns[0], st, under);
      LoopForm(p, ns[1..], MergeStep(p, ns[0], st, under), under);
    }
  }

  lemma StepForm(p: Pass, n: Node, st: Scan, under: bool)
    requires ReadyNode(p, n, under) && ScanReady(p, st, under) && ScanForm(p, st)
    ensures ScanForm(p, MergeStep(p, n, st, under))
  {
    hide ScanForm, ScanReady, Merged, MergeRule;
    match n
    case Leaf(_) => Passed(p, st, n);
    case Directive(h, kids) => Passed(p, st, Directive(h, Merged(p, kids, under)));
    case Rule(sels, kids) =>
      assert n == Rule([sels[0]], kids);
      RuleForm(p, st, sels[0], kids, under);
  }

  // uniq! takes out nothing but declarations.
  lemma {:induction false} StartsCons(p: Pass, n: Node, ns: seq<Node>)
    ensures StartsOf(p, [n] + ns) == StartsOf(p, [n]) + StartsOf(p, ns)
    decreases |ns|
  {
    if ns == [] {
      assert [n] + ns == [n];
    } else {
      StartsCons(p, n, ns[..|ns| - 1]);
      assert ([n] + ns)[..|ns|] == [n] + ns[..|ns| - 1];
    }
  }

  lemma {:induction false} UniqStarts(p: Pass, ns: seq<Node>, seen: set<Decl>)
    ensures StartsOf(p, Uniq(ns, seen)) == StartsOf(p, ns)
  {
    hide StartsOf;
    if ns != [] {
      var seen' := if ns[0].Leaf? then seen + {ns[0].decl} else seen;
      UniqStarts(p, ns[1..], seen);
      UniqStarts(p, ns[1..], seen');
      assert ns == [ns[0]] + ns[1..];
      StartsCons(p, ns[0], ns[1..]);
      StartsCons(p, ns[0], Uniq(ns[1..], seen'));
      if ns[0].Leaf? {
        LeafStarts(p, ns[0]);
      }
    }
  }

  lemma LeafStarts(p: Pass, n: Node)
    requires n.Leaf?
    ensures StartsOf(p, [n]) == []
  {
    assert [n][..0] == [];
  }

  lemma NoStarts(p: Pass)
    ensures ScanForm(p, Scan([], -1))
  {
  }

  lemma FormOut(p: Pass, st: Scan)
    requires ScanForm(p, st)
    ensures AllApart(p, st.out) && NoneAlike(p, StartsOf(p, st.out))
  {
  }

  // ---- The passes ----------------------------------------------------------------------------------------

  /** Both passes go on until there is nothing left to take apart or to merge. */
  lemma {:induction false} MergedFully(p: Pass, ns: seq<Node>, under: bool)
    requires Ready(p, ns, under)
    ensures FullyMerged(p, Merged(p, ns, under))
    decreases Weight(p, ns), 3
  {
    hide ScanForm, NoneAlike, FullyMerged, TakenApart;
    var st := MergeScan(p, ns, Scan([], -1), under);
    NoStarts(p);
    LoopForm(p, ns, Scan([], -1), under);
    FormOut(p, st);
    WeightUniq(p, st.out, {});
    UniqStarts(p, st.out, {});
    EachFully(p, Uniq(st.out, {}), under);
  }

  lemma {:induction false} EachFully(p: Pass, ns: seq<Node>, under: bool)
    requires Ready(p, ns, under) && AllApart(p, ns) && NoneAlike(p, StartsOf(p, ns))
    ensures FullyMerged(p, MergedEach(p, ns, under))
    decreases Weight(p, ns), 2
  {
    hide NoneAlike, TakenApart, Merged, MergedEach;
    var each := MergedEach(p, ns, under);
    EachPart(p, ns, under);
    StartsSame(p, ns, each);
    forall n | n in each && !n.Leaf? ensures FullyMerged(p, n.children) && (n.Rule? ==> TakenApart(p, n)) {
      var k :| 0 <= k < |each| && each[k] == n;
      PartFully(p, ns, k, under);
      if n.Rule? {
        ApartSame(p, ns[k], n);
      }
    }
  }

  lemma PartFully(p: Pass, ns: seq<Node>, k: nat, under: bool)
    requires Ready(p, ns, under) && k < |ns| && !ns[k].Leaf?
    ensures ReadyNode(p, ns[k], under) && FullyMerged(p, MergedNode(p, ns[k], under).children)
    decreases Weight(p, ns), 1
  {
    hide FullyMerged, Merged;
    assert ReadyNode(p, ns[k], under);
    WeightOf(p, ns, k);
    match ns[k]
    case Leaf(_) =>
    case Directive(_, kids) => MergedFully(p, kids, under);
    case Rule(sels, kids) => MergedFully(p, kids, EndsInCompound(Clean(sels[0])));
  }

  lemma {:induction false} WeightOf(p: Pass, ns: seq<Node>, k: nat)
    requires k < |ns|
    ensures NodeWeight(p, ns[k]) <= Weight(p, ns)
  {
    if k > 0 {
      WeightOf(p, ns[1..], k - 1);
    }
  }

  lemma {:induction false} EachPart(p: Pass, ns: seq<Node>, under: bool)
    requires Ready(p, ns, under)
    ensures |MergedEach(p, ns, under)| == |ns|
    ensures forall k :: 0 <= k < |ns| ==>
      ReadyNode(p, ns[k], under) && MergedEach(p, ns, under)[k] == MergedNode(p, ns[k], under) &&
      ns[k].Rule? == MergedEach(p, ns, under)[k].Rule? &&
      (ns[k].Rule? ==> ns[k].sels == MergedEach(p, ns, under)[k].sels)
  {
    hide Merged, ReadyNode, Ready;
    forall k | 0 <= k < |ns| ensures ReadyNode(p, ns[k], under) {
      ReadyAt(p, ns, k, under);
    }
    if ns != [] {
      ReadyTail(p, ns, under);
      EachPart(p, ns[1..], under);
      forall k | 0 < k < |ns| ensures ns[k] == ns[1..][k - 1] {
      }
    }
  }

  lemma ReadyAt(p: Pass, ns: seq<Node>, k: nat, under: bool)
    requires Ready(p, ns, under) && k < |ns|
    ensures ReadyNode(p, ns[k], under)
  {
  }

  lemma ReadyTail(p: Pass, ns: seq<Node>, under: bool)
    requires Ready(p, ns, under) && ns != []
    ensures Ready(p, ns[1..], under)
  {
  }
}
