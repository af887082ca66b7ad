// What fold_commas makes of a list, told from the list and the result.
module FoldGroups {
  import opened Selectors
  import opened StyleTree
  import opened MergePass
  import opened OtherPasses
  import opened CssToSass

  // The selectors of the rules of a list, in order.
  function SelectorsOf(ns: seq<Node>): seq<Sequence> {
    if ns == [] then []
    else SelectorsOf(ns[..|ns| - 1]) + if ns[|ns| - 1].Rule? then ns[|ns| - 1].sels else []
  }

  // How many of the first i nodes stay.
  function KeptBefore(taken: seq<bool>, i: nat): nat {
    if i == 0 then 0 else KeptBefore(taken, i - 1) + if i <= |taken| && taken[i - 1] then 0 else 1
  }

  // The last rule in front of i that stays.
  ghost predicate LastRule(ns: seq<Node>, taken: seq<bool>, j: nat, i: nat) {
    j < i <= |ns| == |taken| && ns[j].Rule? && !taken[j] && forall k :: j < k < i ==> ns[k].Rule? ==> taken[k]
  }

  // It is a rule, and its children print like those of the rule before it in the result.
  ghost predicate PrintsAlike(ns: seq<Node>, r: seq<Node>, taken: seq<bool>, i: nat)
    requires i < |ns| == |taken|
  {
    ns[i].Rule? && exists j: nat :: LastRule(ns, taken, j, i) && HasChildrenLike(r, KeptBefore(taken, j), ns[i].children)
  }

  ghost predicate HasChildrenLike(r: seq<Node>, p: nat, kids: seq<Node>) {
    p < |r| && !r[p].Leaf? && Printed(r[p].children) == Printed(kids)
  }

  // The node in the result for one that stays.
  ghost predicate StaysAs(ns: seq<Node>, i: nat, r: seq<Node>, p: nat)
    requires i < |ns| && p < |r|
  {
    match ns[i]
    case Leaf(_) => r[p] == ns[i]
    case Directive(h, kids) => OneSelectorEach(kids) && r[p] == Directive(h, Folded(kids))
    case Rule(_, kids) =>
      OneSelectorEach(kids) && r[p].Rule? && r[p].children == Folded(kids) && SelectorsOf(r[..p]) == SelectorsOf(ns[..i])
  }

  /** The nodes that are not taken in stand in the result in their order. A rule is taken in exactly
      when its children print like those of the rule before it in the result, and the selectors of
      the rules are those of the list, each under the last rule that stays. */
  ghost predicate Grouped(ns: seq<Node>, r: seq<Node>, taken: seq<bool>) {
    |taken| == |ns| && |r| == KeptBefore(taken, |ns|) && SelectorsOf(r) == SelectorsOf(ns) &&
    (forall i :: 0 <= i < |ns| ==> (taken[i] <==> PrintsAlike(ns, r, taken, i))) &&
    forall i :: 0 <= i < |ns| && !taken[i] ==> KeptBefore(taken, i) < |r| && StaysAs(ns, i, r, KeptBefore(taken, i))
  }

  // ---- Lists with one node more -----------------------------------------------------------------------

  lemma SelectorsSnoc(ns: seq<Node>, n: Node)
    ensures SelectorsOf(ns + [n]) == SelectorsOf(ns) + if n.Rule? then n.sels else []
  {
    assert (ns + [n])[..|ns|] == ns;
  }

  lemma {:induction false} SelectorsUpdate(ns: seq<Node>, p: nat, n: Node)
    requires p < |ns| && ns[p].Rule? && n.Rule? && forall k :: p < k < |ns| ==> !ns[k].Rule?
    ensures SelectorsOf(ns[p := n]) == SelectorsOf(ns[..p]) + n.sels && SelectorsOf(ns) == SelectorsOf(ns[..p]) + ns[p].sels
    decreases |ns|
  {
    var last := |ns| - 1;
    assert ns == ns[..last] + [ns[last]];
    if p == last {
      assert ns[p := n][..last] == ns[..last];
    } else {
      SelectorsUpdate(ns[..last], p, n);
      assert ns[..last][..p] == ns[..p] && ns[p := n][..last] == ns[..last][p := n];
    }
  }

  lemma {:induction false} KeptSnoc(taken: seq<bool>, t: bool, i: nat)
    requires i <= |taken|
    ensures KeptBefore(taken + [t], i) == KeptBefore(taken, i)
    ensures i == |taken| ==> KeptBefore(taken + [t], i + 1) == KeptBefore(taken, i) + if t then 0 else 1
    decreases i
  {
    if i > 0 {
      KeptSnoc(taken, t, i - 1);
      assert (taken + [t])[i - 1] == taken[i - 1];
    }
    if i == |taken| {
      assert (taken + [t])[i] == t;
    }
  }

  lemma {:induction false} KeptRises(taken: seq<bool>, i: nat, j: nat)
    requires i <= j <= |taken|
    ensures KeptBefore(taken, i) <= KeptBefore(taken, j) && (i < j && !taken[i] ==> KeptBefore(taken, i) < KeptBefore(taken, j))
    decreases j - i
  {
    if i < j {
      KeptRises(taken, i, j - 1);
    }
  }

  lemma LastRuleOnce(ns: seq<Node>, taken: seq<bool>, j: nat, l: nat, i: nat)
    requires LastRule(ns, taken, j, i) && LastRule(ns, taken, l, i)
    ensures j == l
  {
  }

  lemma LastRuleSnoc(ns: seq<Node>, taken: seq<bool>, n: Node, t: bool, i: nat)
    requires i <= |ns| == |taken|
    ensures forall j: nat :: LastRule(ns + [n], taken + [t], j, i) <==> LastRule(ns, taken, j, i)
  {
    var ms, ts := ns + [n], taken + [t];
    assert forall k :: 0 <= k < |ns| ==> ms[k] == ns[k] && ts[k] == taken[k];
  }

  // ---- The loop ------------------------------------------------------------------------------------------

  // What is known of the state of the loop behind a list.
  ghost predicate FoldState(ns: seq<Node>, st: Scan, taken: seq<bool>) {
    FoldValid(st) && Grouped(ns, st.out, taken) &&
    (forall p :: st.current < p < |st.out| ==> 0 <= p ==> !st.out[p].Rule?) &&
    if st.current == -1 then forall i :: 0 <= i < |ns| ==> !ns[i].Rule?
    else exists j: nat :: LastRule(ns, taken, j, |ns|) && KeptBefore(taken, j) == st.current
  }

  // The same places with the same children.
  ghost predicate SameBelow(r: seq<Node>, s: seq<Node>) {
    |r| <= |s| && forall p :: 0 <= p < |r| ==>
      (r[p].Leaf? ==> s[p] == r[p]) && (r[p].Directive? ==> s[p] == r[p]) && (r[p].Rule? ==> s[p].Rule? && s[p].children == r[p].children)
  }

  // In the new state what was there is decided as before.
  lemma StillAlike(ns: seq<Node>, r: seq<Node>, taken: seq<bool>, n: Node, t: bool, s: seq<Node>, i: nat)
    requires i < |ns| == |taken| && |r| == KeptBefore(taken, |ns|) && SameBelow(r, s)
    ensures PrintsAlike(ns + [n], s, taken + [t], i) <==> PrintsAlike(ns, r, taken, i)
  {
    hide Printed, LastRule, KeptBefore;
    LastRuleSnoc(ns, taken, n, t, i);
    forall j: nat | LastRule(ns, taken, j, i)
      ensures KeptBefore(taken + [t], j) == KeptBefore(taken, j) < |r|
    {
      LastRuleKept(ns, taken, j, i);
      KeptSnoc(taken, t, j);
    }
  }

  lemma LastRuleKept(ns: seq<Node>, taken: seq<bool>, j: nat, i: nat)
    requires LastRule(ns, taken, j, i)
    ensures j < |taken| && KeptBefore(taken, j) < KeptBefore(taken, |ns|)
  {
    KeptRises(taken, j, |ns|);
  }

  // The new node is taken in when it prints like the current rule.
  lemma NewAlike(ns: seq<Node>, st: Scan, taken: seq<bool>, n: Node, t: bool, s: seq<Node>)
    requires FoldState(ns, st, taken) && SameBelow(st.out, s)
    ensures PrintsAlike(ns + [n], s, taken + [t], |ns|) <==> n.Rule? && Folds(st, n.children)
  {
    hide Printed, LastRule, KeptBefore, Grouped;
    GroupedSize(ns, st.out, taken);
    LastRuleSnoc(ns, taken, n, t, |ns|);
    if st.current == -1 {
      NoLastRule(ns, taken);
    } else {
      var j: nat :| LastRule(ns, taken, j, |ns|) && KeptBefore(taken, j) == st.current;
      LastRuleKept(ns, taken, j, |ns|);
      KeptSnoc(taken, t, j);
      forall l: nat | LastRule(ns, taken, l, |ns|) ensures l == j {
        LastRuleOnce(ns, taken, j, l, |ns|);
      }
    }
  }

  lemma GroupedSize(ns: seq<Node>, r: seq<Node>, taken: seq<bool>)
    requires Grouped(ns, r, taken)
    ensures |taken| == |ns| && |r| == KeptBefore(taken, |ns|) && SelectorsOf(r) == SelectorsOf(ns)
  {
  }

  lemma NoLastRule(ns: seq<Node>, taken: seq<bool>)
    requires forall i :: 0 <= i < |ns| ==> !ns[i].Rule?
    ensures forall j: nat :: !LastRule(ns, taken, j, |ns|)
  {
  }

  // A node that stays, behind what there is.
  lemma Appended(ns: seq<Node>, st: Scan, taken: seq<bool>, n: Node, m: Node)
    requires FoldState(ns, st, taken) && OneSelector(n) && !(n.Rule? && Folds(st, n.children))
    requires
      match n
      case Leaf(_) => m == n
      case Directive(h, kids) => m == Directive(h, Folded(kids))
      case Rule(sels, kids) => m == Rule(sels, Folded(kids))
    ensures FoldState(ns + [n], Scan(st.out + [m], if n.Rule? then |st.out| else st.current), taken + [false])
  {
    hide Printed, LastRule, KeptBefore, Folded, SelectorsOf, PrintsAlike;
    var all, r, ts := ns + [n], st.out + [m], taken + [false];
    SelectorsSnoc(ns, n);
    SelectorsSnoc(st.out, m);
    KeptSnoc(taken, false, |taken|);
    assert SameBelow(st.out, r);
    forall i | 0 <= i < |all| ensures ts[i] <==> PrintsAlike(all, r, ts, i) {
      if i < |ns| {
        StillAlike(ns, st.out, taken, n, false, r, i);
      } else {
        NewAlike(ns, st, taken, n, false, r);
      }
    }
    forall i | 0 <= i < |all| && !ts[i] ensures KeptBefore(ts, i) < |r| && StaysAs(all, i, r, KeptBefore(ts, i)) {
      KeptSnoc(taken, false, i);
      var p := KeptBefore(ts, i);
      assert r[..p] == st.out[..p] && all[..i] == ns[..i];
      assert i < |ns| ==> all[i] == ns[i];
      if i == |ns| {
        assert st.out[..p] == st.out && ns[..i] == ns;
      }
    }
    NewLast(ns, st, taken, n, m);
  }

  lemma NewLast(ns: seq<Node>, st: Scan, taken: seq<bool>, n: Node, m: Node)
    requires FoldState(ns, st, taken) && (n.Rule? <==> m.Rule?)
    ensures
      var all, r, ts := ns + [n], st.out + [m], taken + [false];
      var current := if n.Rule? then |st.out| else st.current;
      (forall p :: current < p < |r| ==> 0 <= p ==> !r[p].Rule?) &&
      if current == -1 then forall i :: 0 <= i < |all| ==> !all[i].Rule?
      else exists j: nat :: LastRule(all, ts, j, |all|) && KeptBefore(ts, j) == current
  {
    hide Printed, KeptBefore, PrintsAlike, StaysAs, SelectorsOf;
    var all, ts := ns + [n], taken + [false];
    assert forall k :: 0 <= k < |ns| ==> all[k] == ns[k] && ts[k] == taken[k];
    if n.Rule? {
      KeptSnoc(taken, false, |ns|);
      assert LastRule(all, ts, |ns|, |all|);
    } else if st.current != -1 {
      var j: nat :| LastRule(ns, taken, j, |ns|) && KeptBefore(taken, j) == st.current;
      KeptSnoc(taken, false, j);
      assert LastRule(all, ts, j, |all|);
    }
  }

  // A rule that is taken in.
  lemma Taken(ns: seq<Node>, st: Scan, taken: seq<bool>, n: Node)
    requires FoldState(ns, st, taken) && n.Rule? && OneSelector(n) && Folds(st, n.children)
    ensures
      var prev := st.out[st.current];
      FoldState(ns + [n], Scan(st.out[st.current := Rule(prev.sels + n.sels, prev.children)], st.current), taken + [true])
  {
    hide Printed, LastRule, KeptBefore, Folded, SelectorsOf, PrintsAlike;
    var prev := st.out[st.current];
    var m := Rule(prev.sels + n.sels, prev.children);
    var all, r, ts := ns + [n], st.out[st.current := m], taken + [true];
    var j: nat :| LastRule(ns, taken, j, |ns|) && KeptBefore(taken, j) == st.current;
    KeptSnoc(taken, true, |taken|);
    SelectorsSnoc(ns, n);
    SelectorsUpdate(st.out, st.current, m);
    Assoc(SelectorsOf(st.out[..st.current]), prev.sels, n.sels);
    assert SameBelow(st.out, r);
    forall i | 0 <= i < |all| ensures ts[i] <==> PrintsAlike(all, r, ts, i) {
      if i < |ns| {
        StillAlike(ns, st.out, taken, n, true, r, i);
      } else {
        NewAlike(ns, st, taken, n, true, r);
      }
    }
    forall i | 0 <= i < |all| && !ts[i] ensures KeptBefore(ts, i) < |r| && StaysAs(all, i, r, KeptBefore(ts, i)) {
      KeptSnoc(taken, true, i);
      assert all[i] == ns[i] && all[..i] == ns[..i];
      if ns[i].Rule? {
        NotBehind(ns, taken, i, j);
      }
      var p := KeptBefore(ts, i);
      assert ns[i].Rule? ==> r[..p] == st.out[..p];
    }
    LastRuleTaken(ns, taken, n, j);
    KeptSnoc(taken, true, j);
  }

  lemma NotBehind(ns: seq<Node>, taken: seq<bool>, i: nat, j: nat)
    requires LastRule(ns, taken, j, |ns|) && i < |ns| && !taken[i] && ns[i].Rule?
    ensures KeptBefore(taken, i) <= KeptBefore(taken, j)
  {
    KeptRises(taken, i, j);
  }

  lemma LastRuleTaken(ns: seq<Node>, taken: seq<bool>, n: Node, j: nat)
    requires LastRule(ns, taken, j, |ns|)
    ensures LastRule(ns + [n], taken + [true], j, |ns| + 1)
  {
  }

  lemma {:induction false} FoldScanSnoc(ns: seq<Node>, n: Node, st: Scan)
    requires OneSelectorEach(ns) && OneSelector(n) && FoldValid(st)
    ensures OneSelectorEach(ns + [n]) && FoldScan(ns + [n], st) == FoldStep(n, FoldScan(ns, st))
    decreases |ns|
  {
    hide FoldStep;
    if ns == [] {
      assert ns + [n] == [n] && [n][1..] == [];
    } else {
      assert OneSelector(ns[0]) && (ns + [n])[1..] == ns[1..] + [n];
      FoldScanSnoc(ns[1..], n, FoldStep(ns[0], st));
    }
  }

  lemma {:induction false} FoldedUpTo(ns: seq<Node>, i: nat) returns (taken: seq<bool>)
    requires OneSelectorEach(ns) && i <= |ns|
    ensures OneSelectorEach(ns[..i]) && FoldState(ns[..i], FoldScan(ns[..i], Scan([], -1)), taken)
  {
    hide FoldState, FoldScan, FoldStep, OneSelector;
    if i == 0 {
      taken := [];
      NothingFolded();
      assert ns[..0] == [];
    } else {
      var before, n := ns[..i - 1], ns[i - 1];
      var ts := FoldedUpTo(ns, i - 1);
      var st := FoldScan(before, Scan([], -1));
      assert n in ns && ns[..i] == before + [n];
      FoldScanSnoc(before, n, Scan([], -1));
      taken := ts + [n.Rule? && FoldsHere(st, n)];
      StepGrouped(before, st, ts, n);
    }
  }

  ghost predicate FoldsHere(st: Scan, n: Node) {
    FoldValid(st) && !n.Leaf? && Folds(st, n.children)
  }

  lemma NothingFolded()
    ensures FoldScan([], Scan([], -1)) == Scan([], -1) && FoldState([], Scan([], -1), [])
  {
  }

  lemma StepGrouped(ns: seq<Node>, st: Scan, taken: seq<bool>, n: Node)
    requires FoldState(ns, st, taken) && OneSelector(n)
    ensures FoldState(ns + [n], FoldStep(n, st), taken + [n.Rule? && FoldsHere(st, n)])
  {
    hide FoldState, Folded, Printed;
    StateValid(ns, st, taken);
    match n
    case Leaf(_) => Appended(ns, st, taken, n, n);
    case Directive(h, kids) => Appended(ns, st, taken, n, Directive(h, Folded(kids)));
    case Rule(sels, kids) =>
      if Folds(st, kids) {
        assert sels == [sels[0]];
        Taken(ns, st, taken, n);
      } else {
        Appended(ns, st, taken, n, Rule(sels, Folded(kids)));
      }
  }

  lemma StateValid(ns: seq<Node>, st: Scan, taken: seq<bool>)
    requires FoldState(ns, st, taken)
    ensures FoldValid(st)
  {
  }

  /** fold_commas groups the rules of every list like that. */
  lemma FoldedGroups(ns: seq<Node>) returns (taken: seq<bool>)
    requires OneSelectorEach(ns)
    ensures Grouped(ns, Folded(ns), taken)
  {
    hide Grouped;
    taken := FoldedUpTo(ns, |ns|);
    assert ns[..|ns|] == ns;
    StateGrouped(ns, FoldScan(ns, Scan([], -1)), taken);
  }

  lemma StateGrouped(ns: seq<Node>, st: Scan, taken: seq<bool>)
    requires FoldState(ns, st, taken)
    ensures Grouped(ns, st.out, taken)
  {
  }

  // ---- Nothing is left to fold or to flatten ------------------------------------------------------------

  predicate OnlyDeclarations(ns: seq<Node>) {
    forall n :: n in ns ==> n.Leaf?
  }

  ghost predicate RulesInARow(ns: seq<Node>, i: nat, j: nat) {
    i < j < |ns| && ns[i].Rule? && ns[j].Rule? && forall k :: i < k < j ==> !ns[k].Rule?
  }

  /** At no depth there are two rules in a row of which the second holds nothing but declarations
      and prints them like the first. */
  ghost predicate NothingToFold(ns: seq<Node>)
    decreases ns
  {
    (forall i: nat, j: nat :: RulesInARow(ns, i, j) && OnlyDeclarations(ns[j].children) ==>
      Printed(ns[i].children) != Printed(ns[j].children)) &&
    forall n :: n in ns && !n.Leaf? ==> NothingToFold(n.children)
  }

  // No rule has another one for its only child.
  ghost predicate NoOnlyRules(ns: seq<Node>)
    decreases ns
  {
    forall n :: n in ns && !n.Leaf? ==> NoOnlyRules(n.children) && (n.Rule? ==> !OnlyRule(n.children))
  }

  /** A rule that is the only child of another one has more than one selector. */
  ghost predicate OnlyRulesFolded(ns: seq<Node>)
    decreases ns
  {
    forall n :: n in ns && !n.Leaf? ==>
      OnlyRulesFolded(n.children) && (n.Rule? && OnlyRule(n.children) ==> |n.children[0].sels| > 1)
  }

  // Each node of the result is that of one that stays.
  lemma {:induction false} Origin(taken: seq<bool>, n: nat, p: nat) returns (i: nat)
    requires n <= |taken| && p < KeptBefore(taken, n)
    ensures i < n && !taken[i] && KeptBefore(taken, i) == p
  {
    if p < KeptBefore(taken, n - 1) {
      i := Origin(taken, n - 1, p);
    } else {
      i := n - 1;
    }
  }

  // What is made of nothing but declarations is what was there.
  lemma {:induction false} FoldedDeclarations(kids: seq<Node>)
    requires OneSelectorEach(kids) && OnlyDeclarations(Folded(kids))
    ensures Folded(kids) == kids
  {
    hide Folded, Printed;
    var r := Folded(kids);
    var taken := FoldedGroups(kids);
    forall i | 0 <= i < |kids| ensures !taken[i] && kids[i].Leaf? {
      AllLeaves(kids, r, taken, i);
    }
    AllKept(taken, |kids|);
    forall i | 0 <= i < |kids| ensures r[i] == kids[i] {
      AllKept(taken, i);
      assert StaysAs(kids, i, r, KeptBefore(taken, i));
    }
  }

  lemma AlikeHasRule(ns: seq<Node>, r: seq<Node>, taken: seq<bool>, i: nat)
    requires i < |ns| == |taken| && PrintsAlike(ns, r, taken, i)
    ensures !OnlyDeclarations(r)
  {
    hide Printed;
    var j: nat :| LastRule(ns, taken, j, i) && HasChildrenLike(r, KeptBefore(taken, j), ns[i].children);
    assert r[KeptBefore(taken, j)] in r;
  }

  lemma AllLeaves(ns: seq<Node>, r: seq<Node>, taken: seq<bool>, i: nat)
    requires Grouped(ns, r, taken) && OnlyDeclarations(r) && i < |ns|
    ensures !taken[i] && ns[i].Leaf?
  {
    hide Printed, Folded, SelectorsOf;
    assert taken[i] <==> PrintsAlike(ns, r, taken, i);
    if PrintsAlike(ns, r, taken, i) {
      AlikeHasRule(ns, r, taken, i);
    }
    if !taken[i] {
      assert StaysAs(ns, i, r, KeptBefore(taken, i)) && r[KeptBefore(taken, i)] in r;
    }
  }

  lemma {:induction false} AllKept(taken: seq<bool>, n: nat)
    requires n <= |taken| && forall i :: 0 <= i < n ==> !taken[i]
    ensures KeptBefore(taken, n) == n
  {
    if n > 0 {
      AllKept(taken, n - 1);
    }
  }

  // Rules in a row are not alike, or the second would have been taken in.
  lemma RowDiffers(ns: seq<Node>, r: seq<Node>, taken: seq<bool>, p: nat, q: nat)
    requires OneSelectorEach(ns) && Grouped(ns, r, taken) && RulesInARow(r, p, q) && OnlyDeclarations(r[q].children)
    ensures Printed(r[p].children) != Printed(r[q].children)
  {
    hide Printed, Folded, SelectorsOf, KeptBefore;
    var i := Origin(taken, |ns|, p);
    var j := Origin(taken, |ns|, q);
    assert StaysAs(ns, i, r, p) && StaysAs(ns, j, r, q);
    StaysRule(ns, i, r, p);
    StaysRule(ns, j, r, q);
    FoldedDeclarations(ns[j].children);
    InOrder(taken, i, j);
    forall k | i < k < j && ns[k].Rule? ensures taken[k] {
      if !taken[k] {
        StaysBetween(ns, r, taken, i, k, j);
      }
    }
    assert LastRule(ns, taken, i, j);
    assert !PrintsAlike(ns, r, taken, j);
    assert !HasChildrenLike(r, p, ns[j].children);
  }

  lemma StaysRule(ns: seq<Node>, i: nat, r: seq<Node>, p: nat)
    requires i < |ns| && p < |r| && r[p].Rule? && StaysAs(ns, i, r, p)
    ensures ns[i].Rule? && OneSelectorEach(ns[i].children) && r[p].children == Folded(ns[i].children)
  {
  }

  lemma StaysBetween(ns: seq<Node>, r: seq<Node>, taken: seq<bool>, i: nat, k: nat, j: nat)
    requires Grouped(ns, r, taken) && i < k < j < |ns| && ns[k].Rule? && !taken[i] && !taken[k]
    ensures var p := KeptBefore(taken, k); KeptBefore(taken, i) < p < KeptBefore(taken, j) && p < |r| && r[p].Rule?
  {
    hide Printed, Folded, SelectorsOf, PrintsAlike;
    KeptRises(taken, i, k);
    KeptRises(taken, k, j);
    assert StaysAs(ns, k, r, KeptBefore(taken, k));
  }

  lemma InOrder(taken: seq<bool>, i: nat, j: nat)
    requires i < |taken| && j < |taken| && KeptBefore(taken, i) < KeptBefore(taken, j)
    ensures i < j
  {
    if j <= i {
      KeptRises(taken, j, i);
    }
  }

  /** There is nothing left to fold in what fold_commas returns. */
  lemma {:induction false} FoldedSettled(ns: seq<Node>)
    requires OneSelectorEach(ns)
    ensures NothingToFold(Folded(ns))
    decreases ns
  {
    hide Printed, Folded, Grouped;
    var r := Folded(ns);
    var taken := FoldedGroups(ns);
    forall p: nat, q: nat | RulesInARow(r, p, q) && OnlyDeclarations(r[q].children)
      ensures Printed(r[p].children) != Printed(r[q].children)
    {
      RowDiffers(ns, r, taken, p, q);
    }
    forall n | n in r && !n.Leaf? ensures NothingToFold(n.children) {
      var p :| 0 <= p < |r| && r[p] == n;
      var i := OriginOf(ns, r, taken, p);
      FoldedSettled(ns[i].children);
    }
  }

  // The node of the list that a rule or directive of the result was.
  lemma OriginOf(ns: seq<Node>, r: seq<Node>, taken: seq<bool>, p: nat) returns (i: nat)
    requires Grouped(ns, r, taken) && p < |r| && !r[p].Leaf?
    ensures i < |ns| && !ns[i].Leaf? && OneSelectorEach(ns[i].children) && r[p].children == Folded(ns[i].children)
    ensures r[p].Rule? <==> ns[i].Rule?
  {
    hide Printed, Folded, SelectorsOf, KeptBefore, PrintsAlike;
    i := Origin(taken, |ns|, p);
    assert StaysAs(ns, i, r, p);
  }

  lemma {:induction false} SelectorsCount(ns: seq<Node>, i: nat, j: nat)
    requires OneSelectorEach(ns) && i < j < |ns| && ns[i].Rule? && ns[j].Rule?
    ensures |SelectorsOf(ns)| >= 2
    decreases |ns|
  {
    var last := |ns| - 1;
    assert ns[last] in ns && forall n :: n in ns[..last] ==> n in ns;
    if j < last {
      SelectorsCount(ns[..last], i, j);
    } else {
      SelectorsSome(ns[..last], i);
      assert OneSelector(ns[last]);
    }
  }

  lemma {:induction false} SelectorsSome(ns: seq<Node>, i: nat)
    requires OneSelectorEach(ns) && i < |ns| && ns[i].Rule?
    ensures |SelectorsOf(ns)| >= 1
    decreases |ns|
  {
    var last := |ns| - 1;
    assert ns[last] in ns && forall n :: n in ns[..last] ==> n in ns;
    if i < last {
      SelectorsSome(ns[..last], i);
    } else {
      assert OneSelector(ns[last]);
    }
  }

  // An only rule with one selector was an only rule before.
  lemma OnlyRuleWas(kids: seq<Node>)
    requires OneSelectorEach(kids) && !OnlyRule(kids) && OnlyRule(Folded(kids))
    ensures |Folded(kids)[0].sels| > 1
  {
    hide Printed, Folded, KeptBefore, SelectorsOf;
    var r := Folded(kids);
    var taken := FoldedGroups(kids);
    OneRuleSelectors(r);
    if i :| 0 <= i < |kids| && taken[i] {
      assert PrintsAlike(kids, r, taken, i);
      var j: nat :| LastRule(kids, taken, j, i) && HasChildrenLike(r, KeptBefore(taken, j), kids[i].children);
      SelectorsCount(kids, j, i);
    } else {
      OnlyRuleStays(kids, r, taken);
    }
  }

  lemma OnlyRuleStays(kids: seq<Node>, r: seq<Node>, taken: seq<bool>)
    requires Grouped(kids, r, taken) && OnlyRule(r) && forall i :: 0 <= i < |kids| ==> !taken[i]
    ensures OnlyRule(kids)
  {
    hide Printed, Folded, KeptBefore, SelectorsOf, PrintsAlike;
    AllKept(taken, |kids|);
    AllKept(taken, 0);
    assert StaysAs(kids, 0, r, KeptBefore(taken, 0));
  }

  lemma OneRuleSelectors(r: seq<Node>)
    requires |r| == 1 && r[0].Rule?
    ensures SelectorsOf(r) == r[0].sels
  {
    assert r[..0] == [] && SelectorsOf([]) == [];
    assert [] + r[0].sels == r[0].sels;
  }

  lemma {:induction false} FoldedOnlyRules(ns: seq<Node>)
    requires OneSelectorEach(ns) && NoOnlyRules(ns)
    ensures OnlyRulesFolded(Folded(ns))
    decreases ns
  {
    hide Printed, Folded, Grouped;
    var r := Folded(ns);
    var taken := FoldedGroups(ns);
    forall n | n in r && !n.Leaf? ensures OnlyRulesFolded(n.children) && (n.Rule? && OnlyRule(n.children) ==> |n.children[0].sels| > 1) {
      var p :| 0 <= p < |r| && r[p] == n;
      var i := OriginOf(ns, r, taken, p);
      assert ns[i] in ns;
      FoldedOnlyRules(ns[i].children);
      if n.Rule? && OnlyRule(n.children) {
        OnlyRuleWas(ns[i].children);
      }
    }
  }

  /** flatten_rules leaves no rule with a rule for its only child. */
  lemma {:induction false} FlattenedNoOnlyRules(ns: seq<Node>, under: bool)
    requires RefsResolve(ns, under)
    ensures NoOnlyRules(Flattened(ns, under)) && (OnlyRule(Flattened(ns, under)) <==> OnlyRule(ns))
    decreases ns, 0
  {
    if ns != [] {
      var n, tail := ns[0], ns[1..];
      assert NodeRefsResolve(n, under);
      FlattenedNoOnlyRules(tail, under);
      match n {
        case Leaf(_) =>
        case Directive(_, kids) => FlattenedNoOnlyRules(kids, under);
        case Rule(_, _) => FlatRuleNoOnlyRules(n, under);
      }
      assert |Flattened(ns, under)| == 1 + |Flattened(tail, under)|;
      FlattenedLength(tail, under);
    }
  }

  lemma {:induction false} FlattenedLength(ns: seq<Node>, under: bool)
    requires RefsResolve(ns, under)
    ensures |Flattened(ns, under)| == |ns|
  {
    if ns != [] {
      assert NodeRefsResolve(ns[0], under);
      FlattenedLength(ns[1..], under);
    }
  }

  lemma {:induction false} FlatRuleNoOnlyRules(rule: Node, under: bool)
    requires rule.Rule? && NodeRefsResolve(rule, under)
    ensures var flat := FlatRule(rule, under); NoOnlyRules(flat.children) && !OnlyRule(flat.children)
    decreases rule.children, 1
  {
    if OnlyRule(rule.children) {
      FlatRuleNoOnlyRules(FlattenOnce(rule, under), under);
    } else {
      FlattenedNoOnlyRules(rule.children, EndsInCompound(rule.sels[0]));
    }
  }

  // The tree that fold_commas is given.
  ghost function Unfolded(root: seq<Node>): (r: seq<Node>)
    requires PlainCss(root)
    ensures OneSelectorEach(r) && NoOnlyRules(r)
  {
    ExpandedReady(root);
    var nested := Merged(NestSeqs, Expanded(root), false);
    NestedReadyForRefs(Expanded(root), false);
    var refs := Merged(ParentRefs, nested, false);
    MergedRefsResolve(refs, false);
    var flat := Flattened(refs, false);
    RefsResolveOneSelector(flat, false);
    FlattenedNoOnlyRules(refs, false);
    flat
  }

  /** In the result of the whole chain the rules are grouped like that, there is nothing left to fold,
      and an only child that is a rule has more than one selector. */
  lemma BuiltSettled(root: seq<Node>)
    requires PlainCss(root)
    ensures exists taken :: Grouped(Unfolded(root), Built(root), taken)
    ensures NothingToFold(Built(root)) && OnlyRulesFolded(Built(root))
  {
    hide Grouped, NothingToFold, OnlyRulesFolded, Merged, Flattened, Folded;
    var taken := FoldedGroups(Unfolded(root));
    assert Grouped(Unfolded(root), Built(root), taken);
    FoldedSettled(Unfolded(root));
    FoldedOnlyRules(Unfolded(root));
  }
}
