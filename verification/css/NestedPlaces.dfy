// The tree that nest_seqs makes: its places come together as those of the list it was given,
// and it is spelled as that was.
module NestedPlaces {
  import opened Selectors
  import opened StyleTree
  import opened MergePass
  import opened DropCount
  import opened OutOfWay
  import opened Clashes
  import opened DropCondition
  import opened ListedTwice

  // ---- Where nothing is dropped -------------------------------------------------------------------

  lemma KeptParts(ns: seq<Node>, under: bool)
    requires Ready(NestSeqs, ns, under) && Dropped(NestSeqs, ns, under) == 0
    ensures
      var out := MergeScan(NestSeqs, ns, Scan([], -1), under).out;
      Uniq(out, {}) == out && Merged(NestSeqs, ns, under) == MergedEach(NestSeqs, out, under) && NoneDropped(out, under)
    ensures forall n :: n in ns && n.Directive? ==> (assert ReadyNode(NestSeqs, n, under); DroppedIn(NestSeqs, n, under) == 0)
  {
    var out := MergeScan(NestSeqs, ns, Scan([], -1), under).out;
    WeightUniq(NestSeqs, out, {});
    UniqSame(out);
    DroppedNone(NestSeqs, ns, under);
    DroppedNone(NestSeqs, Uniq(out, {}), under);
  }

  ghost predicate NoneDropped(ns: seq<Node>, under: bool)
    requires Ready(NestSeqs, ns, under)
  {
    forall n :: n in ns ==> (assert ReadyNode(NestSeqs, n, under); DroppedIn(NestSeqs, n, under) == 0)
  }

  // At every depth rules that follow one another start differently.
  ghost predicate DeepSettled(ns: seq<Node>)
    decreases ns
  {
    Settled(NestSeqs, ns) && forall n :: n in ns && !n.Leaf? ==> DeepSettled(n.children)
  }

  /** Where nest_seqs drops nothing, places come together in its tree as they did before. */
  lemma {:induction false} MergedAlike(way: Way, ns: seq<Node>, under: bool)
    requires Ready(NestSeqs, ns, under) && Dropped(NestSeqs, ns, under) == 0
    ensures Alike(way, Items(NestSeqs, ns), Items(NestSeqs, Merged(NestSeqs, ns, under)))
    ensures DeepSettled(Merged(NestSeqs, ns, under))
    decreases Weight(NestSeqs, ns), 3
  {
    hide Alike, DeepSettled, Settled;
    var st := Scan([], -1);
    KeptParts(ns, under);
    NothingSettled();
    ScanAlike(way, NestSeqs, ns, st, under);
    var out := MergeScan(NestSeqs, ns, st, under).out;
    EachAlike(way, out, under);
    EachSettled(way, out, under);
    assert Items(NestSeqs, []) + Items(NestSeqs, ns) == Items(NestSeqs, ns);
    AlikeTwice(way, Items(NestSeqs, ns), Items(NestSeqs, out), Items(NestSeqs, Merged(NestSeqs, ns, under)));
  }

  lemma NothingSettled()
    ensures Settled(NestSeqs, [])
  {
  }

  lemma {:induction false} EachAlike(way: Way, out: seq<Node>, under: bool)
    requires Ready(NestSeqs, out, under) && NoneDropped(out, under)
    ensures Alike(way, Items(NestSeqs, out), Items(NestSeqs, MergedEach(NestSeqs, out, under)))
    decreases Weight(NestSeqs, out), 2, |out|
  {
    hide Alike, DroppedIn, Items, NodeItems;
    if out == [] {
      AlikeSame(way, Items(NestSeqs, []));
    } else {
      var n, tail := out[0], out[1..];
      EachCons(NestSeqs, out, under);
      assert DroppedIn(NestSeqs, n, under) == 0 && NoneDropped(tail, under) by {
        assert n in out && forall m :: m in tail ==> m in out;
      }
      NodeAlike(way, n, under);
      EachAlike(way, tail, under);
      hide MergedEach, Ready, NoneDropped, MergedNode;
      ItemsCons(NestSeqs, n, tail);
      ItemsCons(NestSeqs, MergedNode(NestSeqs, n, under), MergedEach(NestSeqs, tail, under));
      assert out == [n] + tail;
      AlikeBoth(way, NodeItems(NestSeqs, n), NodeItems(NestSeqs, MergedNode(NestSeqs, n, under)),
                Items(NestSeqs, tail), Items(NestSeqs, MergedEach(NestSeqs, tail, under)));
    }
  }

  lemma {:induction false} NodeAlike(way: Way, n: Node, under: bool)
    requires ReadyNode(NestSeqs, n, under) && DroppedIn(NestSeqs, n, under) == 0
    ensures Alike(way, NodeItems(NestSeqs, n), NodeItems(NestSeqs, MergedNode(NestSeqs, n, under)))
    ensures !n.Leaf? ==> DeepSettled(MergedNode(NestSeqs, n, under).children)
    decreases NodeWeight(NestSeqs, n), 1
  {
    hide Alike, DeepSettled;
    match n
    case Leaf(_) => AlikeSame(way, NodeItems(NestSeqs, n));
    case Directive(h, kids) =>
      MergedAlike(way, kids, under);
      AlikeSame(way, []);
    case Rule(sels, kids) =>
      var below := EndsInCompound(Clean(sels[0]));
      MergedAlike(way, kids, below);
      var path, a, b := Steps(NestSeqs, sels[0]), Items(NestSeqs, kids), Items(NestSeqs, Merged(NestSeqs, kids, below));
      AlikeInside(way, path, a, b);
      AlikeAround(way, [Item(path, None)], Inside(path, a), Inside(path, b), []);
      assert [Item(path, None)] + Inside(path, a) + [] == RuleItems(path, a);
      assert [Item(path, None)] + Inside(path, b) + [] == RuleItems(path, b);
  }

  lemma {:induction false} EachSettled(way: Way, out: seq<Node>, under: bool)
    requires Ready(NestSeqs, out, under) && NoneDropped(out, under) && Settled(NestSeqs, out)
    ensures DeepSettled(MergedEach(NestSeqs, out, under))
    decreases Weight(NestSeqs, out), 2, |out| + 1
  {
    hide Settled, DroppedIn;
    var each := MergedEach(NestSeqs, out, under);
    EachNode(NestSeqs, out, under);
    SettledSame(NestSeqs, out, each);
    forall n | n in each && !n.Leaf? ensures DeepSettled(n.children) {
      var k :| 0 <= k < |each| && each[k] == n;
      assert out[k] in out && ReadyNode(NestSeqs, out[k], under);
      WeightIn(NestSeqs, out, out[k]);
      NodeAlike(way, out[k], under);
    }
  }

  // ---- Directives -----------------------------------------------------------------------------------

  lemma DirectivesUpdate(way: Way, ns: seq<Node>, i: nat, n: Node)
    requires i < |ns| && ns[i].Rule? && n.Rule?
    ensures DirectivesApart(way, ns[i := n]) <==> DirectivesApart(way, ns)
  {
    hide Apart;
    assert ns == ns[..i] + ([ns[i]] + ns[i + 1..]) && ns[i := n] == ns[..i] + ([n] + ns[i + 1..]);
    DirectivesSplit(way, ns[..i], [ns[i]] + ns[i + 1..]);
    DirectivesSplit(way, [ns[i]], ns[i + 1..]);
    DirectivesSplit(way, ns[..i], [n] + ns[i + 1..]);
    DirectivesSplit(way, [n], ns[i + 1..]);
  }

  lemma DirectiveOne(way: Way, n: Node)
    ensures DirectivesApart(way, [n]) <==> (n.Directive? ==> Apart(way, n.children))
  {
    hide Apart;
    assert n in [n];
  }

  // Each directive is passed over in the loop.
  lemma {:induction false} ScanDirectives(way: Way, ns: seq<Node>, st: Scan, under: bool)
    requires Ready(NestSeqs, ns, under) && ScanReady(NestSeqs, st, under)
    requires forall n :: n in ns && n.Directive? ==>
      (assert ReadyNode(NestSeqs, n, under); Apart(way, Merged(NestSeqs, n.children, under)) <==> Apart(way, n.children))
    ensures DirectivesApart(way, MergeScan(NestSeqs, ns, st, under).out) <==> DirectivesApart(way, st.out) && DirectivesApart(way, ns)
    decreases |ns|
  {
    hide Apart, DirectivesApart;
    if ns == [] {
      NoDirectives(way);
    } else {
      var n, tail := ns[0], ns[1..];
      assert n in ns && ReadyNode(NestSeqs, n, under);
      assert ns == [n] + tail;
      DirectivesSplit(way, [n], tail);
      StepDirectives(way, n, st, under);
      ScanDirectives(way, tail, MergeStep(NestSeqs, n, st, under), under);
    }
  }

  lemma NoDirectives(way: Way)
    ensures DirectivesApart(way, [])
  {
  }

  lemma StepDirectives(way: Way, n: Node, st: Scan, under: bool)
    requires ReadyNode(NestSeqs, n, under) && ScanReady(NestSeqs, st, under)
    requires n.Directive? ==> (Apart(way, Merged(NestSeqs, n.children, under)) <==> Apart(way, n.children))
    ensures DirectivesApart(way, MergeStep(NestSeqs, n, st, under).out) <==> DirectivesApart(way, st.out) && DirectivesApart(way, [n])
  {
    hide Apart, DirectivesApart, Merged;
    DirectiveOne(way, n);
    match n
    case Leaf(_) =>
      DirectivesSplit(way, st.out, [n]);
    case Directive(h, kids) =>
      var d := Directive(h, Merged(NestSeqs, kids, under));
      DirectivesSplit(way, st.out, [d]);
      DirectiveOne(way, d);
    case Rule(sels, kids) =>
      assert n == Rule([sels[0]], kids);
      var head, below := Head(NestSeqs, sels[0]), Below(Remainder(NestSeqs, sels[0]), kids);
      if 0 <= st.current && Starts(NestSeqs, st.out[st.current].sels[0][0], head) {
        var c := st.out[st.current];
        DirectivesUpdate(way, st.out, st.current, Rule(c.sels, c.children + below));
      } else {
        DirectivesSplit(way, st.out, [Rule([[head]], below)]);
        DirectiveOne(way, Rule([[head]], below));
      }
  }

  /** And what was apart in the list is apart in the tree. */
  lemma {:induction false} MergedApart(way: Way, ns: seq<Node>, under: bool)
    requires Ready(NestSeqs, ns, under) && Dropped(NestSeqs, ns, under) == 0
    ensures Apart(way, Merged(NestSeqs, ns, under)) <==> Apart(way, ns)
    decreases Weight(NestSeqs, ns), 3
  {
    var st := Scan([], -1);
    KeptParts(ns, under);
    MergedAlike(way, ns, under);
    AlikeClash(way, Items(NestSeqs, ns), Items(NestSeqs, Merged(NestSeqs, ns, under)));
    hide Apart, Alike, DroppedIn;
    forall n | n in ns && n.Directive?
      ensures (assert ReadyNode(NestSeqs, n, under); Apart(way, Merged(NestSeqs, n.children, under)) <==> Apart(way, n.children))
    {
      DirectiveApart(way, ns, n, under);
    }
    ScanDirectives(way, ns, st, under);
    NoDirectives(way);
    EachDirectives(way, MergeScan(NestSeqs, ns, st, under).out, under);
    ApartParts(way, ns);
    ApartParts(way, Merged(NestSeqs, ns, under));
  }

  lemma ApartParts(way: Way, ns: seq<Node>)
    ensures Apart(way, ns) <==> !Clash(way, Items(NestSeqs, ns)) && DirectivesApart(way, ns)
  {
  }

  lemma {:induction false} DirectiveApart(way: Way, ns: seq<Node>, n: Node, under: bool)
    requires Ready(NestSeqs, ns, under) && n in ns && n.Directive?
    requires assert ReadyNode(NestSeqs, n, under); DroppedIn(NestSeqs, n, under) == 0
    ensures assert ReadyNode(NestSeqs, n, under); Apart(way, Merged(NestSeqs, n.children, under)) <==> Apart(way, n.children)
    decreases Weight(NestSeqs, ns), 1
  {
    assert ReadyNode(NestSeqs, n, under);
    WeightIn(NestSeqs, ns, n);
    MergedApart(way, n.children, under);
  }

  lemma {:induction false} EachDirectives(way: Way, out: seq<Node>, under: bool)
    requires Ready(NestSeqs, out, under) && NoneDropped(out, under)
    ensures DirectivesApart(way, MergedEach(NestSeqs, out, under)) <==> DirectivesApart(way, out)
    decreases Weight(NestSeqs, out), 2
  {
    hide Apart, DroppedIn;
    var each := MergedEach(NestSeqs, out, under);
    EachNode(NestSeqs, out, under);
    forall k | 0 <= k < |out| && out[k].Directive? ensures Apart(way, each[k].children) <==> Apart(way, out[k].children) {
      assert out[k] in out;
      DirectiveApart(way, out, out[k], under);
    }
    forall k | 0 <= k < |out| ensures each[k].Directive? <==> out[k].Directive? {
      assert each[k] == MergedNode(NestSeqs, out[k], under);
    }
  }

  // ---- Spelling ---------------------------------------------------------------------------------------

  ghost predicate Spelled(spelling: map<Key, Member>, s: Sequence) {
    forall m :: m in s ==> KeyOf(m) in spelling && spelling[KeyOf(m)] == m
  }

  // Selectors as they are spelled, and directives not within rules.
  ghost predicate Shaped(spelling: map<Key, Member>, ns: seq<Node>, inRule: bool) {
    forall n :: n in ns ==> ShapedNode(spelling, n, inRule)
  }

  ghost predicate ShapedNode(spelling: map<Key, Member>, n: Node, inRule: bool) {
    match n
    case Leaf(_) => true
    case Directive(_, kids) => !inRule && Shaped(spelling, kids, false)
    case Rule(sels, kids) => (forall s :: s in sels ==> Spelled(spelling, Clean(s))) && Shaped(spelling, kids, true)
  }

  lemma {:induction false} MergedShaped(spelling: map<Key, Member>, ns: seq<Node>, under: bool, inRule: bool)
    requires Ready(NestSeqs, ns, under) && Shaped(spelling, ns, inRule)
    ensures Shaped(spelling, Merged(NestSeqs, ns, under), inRule)
    decreases Weight(NestSeqs, ns), 3
  {
    var out := MergeScan(NestSeqs, ns, Scan([], -1), under).out;
    ScanShaped(spelling, ns, Scan([], -1), under, inRule);
    WeightUniq(NestSeqs, out, {});
    EachShaped(spelling, Uniq(out, {}), under, inRule);
  }

  lemma {:induction false} ScanShaped(spelling: map<Key, Member>, ns: seq<Node>, st: Scan, under: bool, inRule: bool)
    requires Ready(NestSeqs, ns, under) && ScanReady(NestSeqs, st, under)
    requires Shaped(spelling, ns, inRule) && Shaped(spelling, st.out, inRule)
    ensures Shaped(spelling, MergeScan(NestSeqs, ns, st, under).out, inRule)
    decreases Weight(NestSeqs, ns), 1, |ns|
  {
    if ns != [] {
      var n := ns[0];
      assert n in ns && ReadyNode(NestSeqs, n, under) && ShapedNode(spelling, n, inRule);
      StepShaped(spelling, n, st, under, inRule);
      ScanShaped(spelling, ns[1..], MergeStep(NestSeqs, n, st, under), under, inRule);
    }
  }

  lemma {:induction false} StepShaped(spelling: map<Key, Member>, n: Node, st: Scan, under: bool, inRule: bool)
    requires ReadyNode(NestSeqs, n, under) && ScanReady(NestSeqs, st, under)
    requires ShapedNode(spelling, n, inRule) && Shaped(spelling, st.out, inRule)
    ensures Shaped(spelling, MergeStep(NestSeqs, n, st, under).out, inRule)
    decreases NodeWeight(NestSeqs, n), 0
  {
    match n
    case Leaf(_) =>
    case Directive(h, kids) => MergedShaped(spelling, kids, under, inRule);
    case Rule(sels, kids) =>
      assert n == Rule([sels[0]], kids) && sels[0] in sels;
      RuleShaped(spelling, sels[0], kids, st, under, inRule);
  }

  lemma RuleShaped(spelling: map<Key, Member>, s: Sequence, kids: seq<Node>, st: Scan, under: bool, inRule: bool)
    requires ReadyNode(NestSeqs, Rule([s], kids), under) && ScanReady(NestSeqs, st, under)
    requires Spelled(spelling, Clean(s)) && Shaped(spelling, kids, true) && Shaped(spelling, st.out, inRule)
    ensures Shaped(spelling, MergeRule(NestSeqs, st, s, kids, under).out, inRule)
  {
    hide KeyOf;
    var head, rest := Clean(s)[0], Clean(s)[1..];
    CleanParts(s);
    var below := Below(rest, kids);
    assert Shaped(spelling, below, true);
    if 0 <= st.current && Starts(NestSeqs, st.out[st.current].sels[0][0], head) {
      var c := st.out[st.current];
      assert c in st.out && ShapedNode(spelling, c, inRule);
      assert ShapedNode(spelling, Rule(c.sels, c.children + below), inRule);
    } else {
      assert ShapedNode(spelling, Rule([[head]], below), inRule);
    }
  }

  lemma {:induction false} EachShaped(spelling: map<Key, Member>, ns: seq<Node>, under: bool, inRule: bool)
    requires Ready(NestSeqs, ns, under) && Shaped(spelling, ns, inRule)
    ensures Shaped(spelling, MergedEach(NestSeqs, ns, under), inRule)
    decreases Weight(NestSeqs, ns), 2, |ns|
  {
    if ns != [] {
      var n := ns[0];
      assert n in ns && ShapedNode(spelling, n, inRule);
      EachCons(NestSeqs, ns, under);
      EachShaped(spelling, ns[1..], under, inRule);
      match n {
        case Leaf(_) =>
        case Directive(_, kids) => MergedShaped(spelling, kids, under, inRule);
        case Rule(sels, kids) => MergedShaped(spelling, kids, EndsInCompound(Clean(sels[0])), true);
      }
    }
  }
}
