// The make targets that are built, directly or not, from a source file, and which of them
// are tried first for its compiler flags.
module MakeTargets {
  // A line of make's data base: a target, and the names behind its colon.
  datatype Rule = Rule(target: string, names: set<string>)

  predicate Contains(s: string, part: string) {
    part <= s || (s != "" && Contains(s[1..], part))
  }

  predicate EndsWith(s: string, end: string) {
    |end| <= |s| && s[|s| - |end|..] == end
  }

  // Make's own targets and automake's.
  predicate Skipped(target: string) {
    (target != "" && target[0] == '#') || Contains(target, "-am")
  }

  // ---- What depends on the source ----------------------------------------------------------------

  ghost predicate DependsOn(rules: seq<Rule>, target: string, name: string) {
    !Skipped(target) && exists r :: r in rules && r.target == target && name in r.names
  }

  // Each target of the chain depends on the one before it, and the first on a source name.
  ghost predicate Chain(rules: seq<Rule>, sources: seq<string>, chain: seq<string>) {
    chain != [] &&
    (exists s :: s in sources && DependsOn(rules, chain[0], s)) &&
    forall i :: 0 < i < |chain| ==> DependsOn(rules, chain[i], chain[i - 1])
  }

  ghost predicate Built(rules: seq<Rule>, sources: seq<string>, target: string) {
    exists chain :: Chain(rules, sources, chain) && chain[|chain| - 1] == target
  }

  lemma BuiltFromSource(rules: seq<Rule>, sources: seq<string>, target: string, s: string)
    requires s in sources && DependsOn(rules, target, s)
    ensures Built(rules, sources, target)
  {
    assert Chain(rules, sources, [target]);
  }

  lemma BuiltFromBuilt(rules: seq<Rule>, sources: seq<string>, target: string, t: string)
    requires Built(rules, sources, t) && DependsOn(rules, target, t)
    ensures Built(rules, sources, target)
  {
    var chain :| Chain(rules, sources, chain) && chain[|chain| - 1] == t;
    assert Chain(rules, sources, chain + [target]);
  }

  // At most n rules lead from a source name to the target.
  ghost predicate Near(rules: seq<Rule>, sources: seq<string>, target: string, n: nat) {
    exists chain :: Chain(rules, sources, chain) && chain[|chain| - 1] == target && |chain| <= n
  }

  // The shortest chain to a is not longer than that to b.
  ghost predicate Nearer(rules: seq<Rule>, sources: seq<string>, a: string, b: string) {
    forall n: nat :: Near(rules, sources, b, n) ==> Near(rules, sources, a, n)
  }

  ghost predicate ByDistance(rules: seq<Rule>, sources: seq<string>, targets: seq<string>) {
    forall i, j :: 0 <= i < j < |targets| ==> Nearer(rules, sources, targets[i], targets[j])
  }

  lemma NearMore(rules: seq<Rule>, sources: seq<string>, target: string, n: nat, m: nat)
    requires Near(rules, sources, target, n) && n <= m
    ensures Near(rules, sources, target, m)
  {
  }

  // One rule more.
  lemma NearNext(rules: seq<Rule>, sources: seq<string>, target: string, name: string, n: nat)
    requires DependsOn(rules, target, name)
    requires (n == 0 && name in sources) || Near(rules, sources, name, n)
    ensures Near(rules, sources, target, n + 1)
  {
    if n == 0 && name in sources {
      assert Chain(rules, sources, [target]);
    } else {
      var chain :| Chain(rules, sources, chain) && chain[|chain| - 1] == name && |chain| <= n;
      assert Chain(rules, sources, chain + [target]);
    }
  }

  // The last rule of a chain.
  lemma NearBack(rules: seq<Rule>, sources: seq<string>, target: string, n: nat)
    requires Near(rules, sources, target, n + 1)
    ensures exists name :: DependsOn(rules, target, name) && (name in sources || Near(rules, sources, name, n))
  {
    var chain :| Chain(rules, sources, chain) && chain[|chain| - 1] == target && |chain| <= n + 1;
    if |chain| == 1 {
      var s :| s in sources && DependsOn(rules, chain[0], s);
    } else {
      var front := chain[..|chain| - 1];
      assert Chain(rules, sources, front) && front[|front| - 1] == chain[|chain| - 2];
    }
  }

  // A rule that gives the target from a source name or from one within n rules of it.
  ghost predicate Gives(rules: seq<Rule>, sources: seq<string>, r: Rule, target: string, n: nat) {
    r.target == target && exists name :: name in r.names && (name in sources || Near(rules, sources, name, n))
  }

  ghost predicate FirstGiven(rules: seq<Rule>, sources: seq<string>, target: string, n: nat, k: nat) {
    k < |rules| && Gives(rules, sources, rules[k], target, n) &&
    forall l :: 0 <= l < k ==> !Gives(rules, sources, rules[l], target, n)
  }

  // Targets at one distance stand in the order of the rules that give them at that distance first.
  ghost predicate InMakeOrder(rules: seq<Rule>, sources: seq<string>, targets: seq<string>) {
    forall i, j, n: nat, k: nat, l: nat ::
      0 <= i < j < |targets| && !Near(rules, sources, targets[i], n) && Near(rules, sources, targets[j], n + 1) &&
      FirstGiven(rules, sources, targets[i], n, k) && FirstGiven(rules, sources, targets[j], n, l) ==>
        k < l
  }

  // What is found takes in all that depends on a source name or on something found.
  ghost predicate Closed(rules: seq<Rule>, sources: seq<string>, found: seq<string>, open: seq<string>) {
    forall t, n :: DependsOn(rules, t, n) && (n in sources || n in found) && n !in open ==> t in found
  }

  lemma {:induction false} ClosedTakesChain(rules: seq<Rule>, sources: seq<string>, found: seq<string>, chain: seq<string>)
    requires Closed(rules, sources, found, []) && Chain(rules, sources, chain)
    ensures chain[|chain| - 1] in found
    decreases |chain|
  {
    if |chain| > 1 {
      ClosedTakesChain(rules, sources, found, chain[..|chain| - 1]);
    }
  }

  // ---- The worklist ----------------------------------------------------------------------------------

  predicate NoRepeats(s: seq<string>) {
    forall i, j :: 0 <= i < j < |s| ==> s[i] != s[j]
  }

  predicate Mentions(r: Rule, names: seq<string>) {
    exists n :: n in names && n in r.names
  }

  function Targets(rules: seq<Rule>): set<string> {
    set r | r in rules :: r.target
  }

  lemma AddNew(s: seq<string>, e: string)
    requires NoRepeats(s) && e !in s
    ensures NoRepeats(s + [e])
  {
  }

  ghost predicate DependOnSome(rules: seq<Rule>, targets: seq<string>, names: seq<string>) {
    forall t :: t in targets ==> exists n :: n in names && DependsOn(rules, t, n)
  }

  ghost predicate AllThatDepend(rules: seq<Rule>, names: seq<string>, targets: seq<string>) {
    forall t, n :: n in names && DependsOn(rules, t, n) ==> t in targets
  }

  ghost predicate AllBuilt(rules: seq<Rule>, sources: seq<string>, targets: seq<string>) {
    forall t :: t in targets ==> Built(rules, sources, t)
  }

  predicate Matches(r: Rule, names: seq<string>, target: string) {
    r.target == target && Mentions(r, names)
  }

  ghost predicate FirstMatch(rules: seq<Rule>, names: seq<string>, target: string, k: nat) {
    k < |rules| && Matches(rules[k], names, target) && forall l :: 0 <= l < k ==> !Matches(rules[l], names, target)
  }

  // In the order of the rules that give them first.
  ghost predicate InRuleOrder(rules: seq<Rule>, names: seq<string>, targets: seq<string>) {
    forall i, j, k: nat, l: nat ::
      0 <= i < j < |targets| && FirstMatch(rules, names, targets[i], k) && FirstMatch(rules, names, targets[j], l) ==> k < l
  }

  // All targets come from the first i rules.
  ghost predicate MatchedBy(rules: seq<Rule>, names: seq<string>, targets: seq<string>, i: nat) {
    forall t :: t in targets ==> exists k :: 0 <= k < i && k < |rules| && Matches(rules[k], names, t)
  }

  lemma NextInOrder(rules: seq<Rule>, names: seq<string>, targets: seq<string>, i: nat)
    requires i < |rules| && Matches(rules[i], names, rules[i].target)
    requires InRuleOrder(rules, names, targets) && MatchedBy(rules, names, targets, i)
    requires forall k :: 0 <= k < i ==> !Matches(rules[k], names, rules[i].target)
    ensures InRuleOrder(rules, names, targets + [rules[i].target]) && MatchedBy(rules, names, targets + [rules[i].target], i + 1)
  {
    hide Matches;
    var all := targets + [rules[i].target];
    forall m, j, k: nat, l: nat |
      0 <= m < j < |all| && FirstMatch(rules, names, all[m], k) && FirstMatch(rules, names, all[j], l)
      ensures k < l
    {
      if j == |targets| {
        assert all[m] in targets;
      }
    }
  }

  // One pass over the rules: the targets that were not found before and depend on a name
  // looked for, in the order of their rules.
  method Pass(rules: seq<Rule>, lookfor: seq<string>, found: seq<string>) returns (more: seq<string>)
    requires NoRepeats(found)
    ensures NoRepeats(found + more) && (forall t :: t in more ==> t in Targets(rules))
    ensures DependOnSome(rules, more, lookfor) && AllThatDepend(rules, lookfor, found + more)
    ensures InRuleOrder(rules, lookfor, more)
  {
    hide InRuleOrder, MatchedBy;
    more := [];
    NoneInOrder(rules, lookfor);
    for i := 0 to |rules|
      invariant NoRepeats(found + more) && (forall t :: t in more ==> t in Targets(rules))
      invariant DependOnSome(rules, more, lookfor)
      invariant InRuleOrder(rules, lookfor, more) && MatchedBy(rules, lookfor, more, i)
      invariant forall j :: 0 <= j < i && !Skipped(rules[j].target) && Mentions(rules[j], lookfor) ==> rules[j].target in found + more
    {
      var target := rules[i].target;
      if Mentions(rules[i], lookfor) && !Skipped(target) && target !in found + more {
        AddNew(found + more, target);
        assert found + more + [target] == found + (more + [target]);
        NextInOrder(rules, lookfor, more, i);
        more := more + [target];
      } else {
        StillMatched(rules, lookfor, more, i);
      }
    }
    forall t, n | n in lookfor && DependsOn(rules, t, n) ensures t in found + more {
      var r :| r in rules && r.target == t && n in r.names;
      assert Mentions(r, lookfor);
    }
  }

  lemma NoneInOrder(rules: seq<Rule>, names: seq<string>)
    ensures InRuleOrder(rules, names, []) && MatchedBy(rules, names, [], 0)
  {
  }

  lemma StillMatched(rules: seq<Rule>, names: seq<string>, targets: seq<string>, i: nat)
    requires MatchedBy(rules, names, targets, i)
    ensures MatchedBy(rules, names, targets, i + 1)
  {
  }

  // After n rounds the targets within n rules are found.
  ghost predicate AllNear(rules: seq<Rule>, sources: seq<string>, targets: seq<string>, n: nat) {
    forall t :: t in targets <==> Near(rules, sources, t, n)
  }

  lemma RoundNear(rules: seq<Rule>, sources: seq<string>, lookfor: seq<string>, found: seq<string>, more: seq<string>, n: nat)
    requires ByDistance(rules, sources, found) && AllNear(rules, sources, found, n) && NoRepeats(found + more)
    requires Closed(rules, sources, found, lookfor)
    requires DependOnSome(rules, more, lookfor) && AllThatDepend(rules, lookfor, found + more)
    requires n == 0 ==> lookfor == sources
    requires n > 0 ==> forall m :: m in lookfor ==> m in found
    ensures AllNear(rules, sources, found + more, n + 1)
    ensures ByDistance(rules, sources, found + more)
  {
    hide Near, DependsOn, Closed, AllThatDepend;
    var all := found + more;
    forall t | t in all ensures Near(rules, sources, t, n + 1) {
      if t in found {
        NearMore(rules, sources, t, n, n + 1);
      } else {
        var name :| name in lookfor && DependsOn(rules, t, name);
        NearNext(rules, sources, t, name, n);
      }
    }
    forall t | Near(rules, sources, t, n + 1) ensures t in all {
      NearBack(rules, sources, t, n);
      var name :| DependsOn(rules, t, name) && (name in sources || Near(rules, sources, name, n));
      FoundNext(rules, sources, lookfor, found, all, t, name);
    }
    forall i, j | 0 <= i < j < |all| ensures Nearer(rules, sources, all[i], all[j]) {
      if j >= |found| {
        NewFar(rules, sources, found, more, j - |found|, n);
        forall m: nat | Near(rules, sources, all[j], m) ensures Near(rules, sources, all[i], m) {
          if m <= n {
            NearMore(rules, sources, all[j], m, n);
          }
          assert all[i] in all;
          NearMore(rules, sources, all[i], n + 1, m);
        }
      }
    }
  }

  // The rules of a round are those that give a target at its distance.
  lemma RoundGives(rules: seq<Rule>, sources: seq<string>, lookfor: seq<string>, found: seq<string>, t: string, k: nat, n: nat)
    requires AllNear(rules, sources, found, n) && Closed(rules, sources, found, lookfor)
    requires forall m :: m in lookfor ==> m in sources || m in found
    requires !Near(rules, sources, t, n) && !Skipped(t) && k < |rules|
    ensures Gives(rules, sources, rules[k], t, n) <==> Matches(rules[k], lookfor, t)
  {
    hide Near, Skipped;
    if Gives(rules, sources, rules[k], t, n) {
      var name :| name in rules[k].names && (name in sources || Near(rules, sources, name, n));
      assert DependsOn(rules, t, name);
      assert name in lookfor;
    }
  }

  lemma RoundFirst(rules: seq<Rule>, sources: seq<string>, lookfor: seq<string>, found: seq<string>, t: string, k: nat, n: nat)
    requires AllNear(rules, sources, found, n) && Closed(rules, sources, found, lookfor)
    requires forall m :: m in lookfor ==> m in sources || m in found
    requires !Near(rules, sources, t, n) && !Skipped(t)
    requires FirstGiven(rules, sources, t, n, k)
    ensures FirstMatch(rules, lookfor, t, k)
  {
    hide Near, Skipped, Closed, AllNear, Matches, Gives;
    forall l: nat | l <= k ensures Gives(rules, sources, rules[l], t, n) <==> Matches(rules[l], lookfor, t) {
      RoundGives(rules, sources, lookfor, found, t, l, n);
    }
  }

  lemma RoundInOrder(rules: seq<Rule>, sources: seq<string>, lookfor: seq<string>, found: seq<string>, more: seq<string>, n: nat)
    requires AllNear(rules, sources, found, n) && AllNear(rules, sources, found + more, n + 1) && NoRepeats(found + more)
    requires Closed(rules, sources, found, lookfor) && forall m :: m in lookfor ==> m in sources || m in found
    requires DependOnSome(rules, more, lookfor) && InRuleOrder(rules, lookfor, more)
    requires InMakeOrder(rules, sources, found)
    ensures InMakeOrder(rules, sources, found + more)
  {
    hide Near, Skipped, Closed, FirstGiven, FirstMatch;
    var all := found + more;
    forall i, j, m: nat, k: nat, l: nat |
      0 <= i < j < |all| && !Near(rules, sources, all[i], m) && Near(rules, sources, all[j], m + 1) &&
      FirstGiven(rules, sources, all[i], m, k) && FirstGiven(rules, sources, all[j], m, l)
      ensures k < l
    {
      if j >= |found| {
        SameRound(rules, sources, found, more, n, i, j, m);
        NewFar(rules, sources, found, more, i - |found|, n);
        NewFar(rules, sources, found, more, j - |found|, n);
        NotSkipped(rules, lookfor, more);
        RoundFirst(rules, sources, lookfor, found, all[i], k, n);
        RoundFirst(rules, sources, lookfor, found, all[j], l, n);
        assert all[i] == more[i - |found|] && all[j] == more[j - |found|];
      }
    }
  }

  lemma NotSkipped(rules: seq<Rule>, lookfor: seq<string>, more: seq<string>)
    requires DependOnSome(rules, more, lookfor)
    ensures forall t :: t in more ==> !Skipped(t)
  {
    hide Skipped;
  }

  // Two targets that are at one distance are found in one round.
  lemma SameRound(rules: seq<Rule>, sources: seq<string>, found: seq<string>, more: seq<string>, n: nat, i: nat, j: nat, m: nat)
    requires AllNear(rules, sources, found, n) && AllNear(rules, sources, found + more, n + 1) && NoRepeats(found + more)
    requires i < j < |found + more| && j >= |found|
    requires !Near(rules, sources, (found + more)[i], m) && Near(rules, sources, (found + more)[j], m + 1)
    ensures i >= |found| && m == n
  {
    hide Near;
    var all := found + more;
    NewFar(rules, sources, found, more, j - |found|, n);
    if m < n {
      NearMore(rules, sources, all[j], m + 1, n);
    }
    assert all[i] in all;
    if m > n {
      NearMore(rules, sources, all[i], n + 1, m);
    }
    InFront(found, more, i);
  }

  lemma InFront(found: seq<string>, more: seq<string>, i: nat)
    ensures i < |found| ==> (found + more)[i] in found
  {
  }

  lemma NewFar(rules: seq<Rule>, sources: seq<string>, found: seq<string>, more: seq<string>, j: nat, n: nat)
    requires AllNear(rules, sources, found, n) && NoRepeats(found + more) && j < |more|
    ensures !Near(rules, sources, more[j], n)
  {
    assert (found + more)[|found| + j] == more[j];
    forall i | 0 <= i < |found| ensures found[i] != more[j] {
      assert (found + more)[i] == found[i];
    }
  }

  lemma FoundNext(rules: seq<Rule>, sources: seq<string>, lookfor: seq<string>, found: seq<string>, all: seq<string>, t: string, name: string)
    requires Closed(rules, sources, found, lookfor) && AllThatDepend(rules, lookfor, all)
    requires DependsOn(rules, t, name) && (name in sources || name in found)
    requires forall f :: f in found ==> f in all
    ensures t in all
  {
  }

  /** The targets that depend on the source through targets that are not skipped, each once,
      those with the shorter chains first, and those at one distance in the order of make's
      output. */
  method FindTargets(rules: seq<Rule>, sources: seq<string>) returns (targets: seq<string>)
    ensures NoRepeats(targets)
    ensures forall t :: t in targets <==> Built(rules, sources, t)
    ensures ByDistance(rules, sources, targets) && InMakeOrder(rules, sources, targets)
  {
    hide InMakeOrder, InRuleOrder, ByDistance, AllNear, Closed, AllBuilt, NoRepeats, DependOnSome, AllThatDepend, Targets;
    targets := [];
    var lookfor := sources;
    ghost var rounds := 0;
    NothingYet(rules, sources);
    while lookfor != []
      invariant NoRepeats(targets) && AllBuilt(rules, sources, targets)
      invariant forall n :: n in lookfor ==> n in sources || n in targets
      invariant Closed(rules, sources, targets, lookfor)
      invariant ByDistance(rules, sources, targets) && AllNear(rules, sources, targets, rounds)
      invariant InMakeOrder(rules, sources, targets)
      invariant rounds == 0 ==> lookfor == sources
      invariant rounds > 0 ==> forall n :: n in lookfor ==> n in targets
      decreases |Targets(rules) - (set t | t in targets)|, |lookfor|
    {
      var more := Pass(rules, lookfor, targets);
      MoreBuilt(rules, sources, lookfor, targets, more);
      StillClosed(rules, sources, lookfor, targets, more);
      LessLeft(rules, targets, more);
      RoundNear(rules, sources, lookfor, targets, more, rounds);
      RoundInOrder(rules, sources, lookfor, targets, more, rounds);
      rounds := rounds + 1;
      targets := targets + more;
      lookfor := more;
    }
    AllFound(rules, sources, targets);
  }

  lemma FirstRuleOf(rules: seq<Rule>, sources: seq<string>, target: string, n: nat) returns (k: nat)
    requires Near(rules, sources, target, n + 1)
    ensures FirstGiven(rules, sources, target, n, k)
  {
    hide Near, Skipped;
    NearBack(rules, sources, target, n);
    var name :| DependsOn(rules, target, name) && (name in sources || Near(rules, sources, name, n));
    var r :| r in rules && r.target == target && name in r.names;
    assert Gives(rules, sources, r, target, n);
    hide Gives;
    k := 0;
    while !Gives(rules, sources, rules[k], target, n)
      invariant k < |rules| && r in rules[k..] && forall l :: 0 <= l < k ==> !Gives(rules, sources, rules[l], target, n)
      decreases |rules| - k
    {
      k := k + 1;
    }
  }

  lemma Distance(rules: seq<Rule>, sources: seq<string>, target: string) returns (n: nat)
    requires Built(rules, sources, target)
    ensures !Near(rules, sources, target, n) && Near(rules, sources, target, n + 1)
  {
    var chain :| Chain(rules, sources, chain) && chain[|chain| - 1] == target;
    assert Near(rules, sources, target, |chain|);
    n := |chain| - 1;
    while Near(rules, sources, target, n)
      invariant Near(rules, sources, target, n + 1)
      decreases n
    {
      assert n > 0;
      n := n - 1;
    }
  }

  // Of two targets that a and b have in another order, one would come from an earlier rule
  // and from a later one.
  lemma OneWay(rules: seq<Rule>, sources: seq<string>, a: seq<string>, i: nat, j: nat, b: seq<string>, k: nat, l: nat)
    requires i < j < |a| && k < |b| && l < |b| && a[i] == b[l] && a[j] == b[k] && NoRepeats(a)
    requires ByDistance(rules, sources, a) && InMakeOrder(rules, sources, a)
    requires ByDistance(rules, sources, b) && InMakeOrder(rules, sources, b)
    requires Built(rules, sources, a[i])
    ensures l < k
  {
    hide Near, FirstGiven, Built;
    if k < l {
      var n := Distance(rules, sources, a[i]);
      assert Nearer(rules, sources, a[i], a[j]) && Nearer(rules, sources, a[j], a[i]);
      var x := FirstRuleOf(rules, sources, a[i], n);
      var y := FirstRuleOf(rules, sources, a[j], n);
      assert false;
    }
  }

  lemma {:induction false} SameOrder(a: seq<string>, b: seq<string>)
    requires NoRepeats(a) && NoRepeats(b) && forall t :: t in a <==> t in b
    requires forall i, j, k, l :: 0 <= i < j < |a| && 0 <= k < |b| && 0 <= l < |b| && a[i] == b[l] && a[j] == b[k] ==> l < k
    ensures a == b
    decreases |a|
  {
    assert b != [] ==> b[0] in b;
    if a == [] {
    } else {
      assert a[0] in b;
      assert b[0] in a;
      assert a[0] == b[0];
      forall t ensures t in a[1..] <==> t in b[1..] {
        Tail(a, t);
        Tail(b, t);
      }
      assert forall i :: 0 <= i < |a| - 1 ==> a[1..][i] == a[i + 1];
      assert forall i :: 0 <= i < |b| - 1 ==> b[1..][i] == b[i + 1];
      SameOrder(a[1..], b[1..]);
      assert a == [a[0]] + a[1..] && b == [b[0]] + b[1..];
    }
  }

  lemma Tail(a: seq<string>, t: string)
    requires NoRepeats(a) && a != []
    ensures t in a[1..] <==> t in a && t != a[0]
  {
    assert a == [a[0]] + a[1..];
  }

  /** There is only one list like that. */
  lemma OneFinding(rules: seq<Rule>, sources: seq<string>, a: seq<string>, b: seq<string>)
    requires NoRepeats(a) && NoRepeats(b)
    requires forall t :: t in a <==> Built(rules, sources, t)
    requires forall t :: t in b <==> Built(rules, sources, t)
    requires ByDistance(rules, sources, a) && InMakeOrder(rules, sources, a)
    requires ByDistance(rules, sources, b) && InMakeOrder(rules, sources, b)
    ensures a == b
  {
    hide ByDistance, InMakeOrder, Built;
    forall i, j, k, l | 0 <= i < j < |a| && 0 <= k < |b| && 0 <= l < |b| && a[i] == b[l] && a[j] == b[k] ensures l < k {
      OneWay(rules, sources, a, i, j, b, k, l);
    }
    SameOrder(a, b);
  }

  lemma NothingYet(rules: seq<Rule>, sources: seq<string>)
    ensures NoRepeats([]) && AllBuilt(rules, sources, []) && Closed(rules, sources, [], sources)
    ensures ByDistance(rules, sources, []) && AllNear(rules, sources, [], 0) && InMakeOrder(rules, sources, [])
  {
  }

  lemma AllFound(rules: seq<Rule>, sources: seq<string>, found: seq<string>)
    requires AllBuilt(rules, sources, found) && Closed(rules, sources, found, [])
    ensures forall t :: t in found <==> Built(rules, sources, t)
  {
    forall t | Built(rules, sources, t) ensures t in found {
      var chain :| Chain(rules, sources, chain) && chain[|chain| - 1] == t;
      ClosedTakesChain(rules, sources, found, chain);
    }
  }

  lemma LessLeft(rules: seq<Rule>, found: seq<string>, more: seq<string>)
    requires NoRepeats(found + more) && forall t :: t in more ==> t in Targets(rules)
    ensures more != [] ==> |Targets(rules) - (set t | t in found + more)| < |Targets(rules) - (set t | t in found)|
    ensures more == [] ==> found + more == found
  {
    if more != [] {
      assert (found + more)[|found|] == more[0];
      forall i | 0 <= i < |found| ensures found[i] != more[0] {
        assert (found + more)[i] == found[i];
      }
      Fewer(Targets(rules), found, more);
    }
  }

  lemma MoreBuilt(rules: seq<Rule>, sources: seq<string>, lookfor: seq<string>, found: seq<string>, more: seq<string>)
    requires AllBuilt(rules, sources, found) && DependOnSome(rules, more, lookfor)
    requires forall n :: n in lookfor ==> n in sources || n in found
    ensures AllBuilt(rules, sources, found + more)
  {
    forall t | t in more ensures Built(rules, sources, t) {
      var n :| n in lookfor && DependsOn(rules, t, n);
      if n in sources {
        BuiltFromSource(rules, sources, t, n);
      } else {
        BuiltFromBuilt(rules, sources, t, n);
      }
    }
  }

  lemma StillClosed(rules: seq<Rule>, sources: seq<string>, lookfor: seq<string>, found: seq<string>, more: seq<string>)
    requires Closed(rules, sources, found, lookfor)
    requires AllThatDepend(rules, lookfor, found + more)
    ensures Closed(rules, sources, found + more, more)
  {
    hide DependsOn;
  }

  lemma Fewer(all: set<string>, found: seq<string>, more: seq<string>)
    requires more != [] && more[0] in all && more[0] !in found
    ensures |all - (set t | t in found + more)| < |all - (set t | t in found)|
  {
    var left, less := all - (set t | t in found), all - (set t | t in found + more);
    assert more[0] in left && more[0] !in less && less <= left;
    assert less <= left - {more[0]};
    SubsetSize(less, left - {more[0]});
  }

  lemma {:induction false} SubsetSize(a: set<string>, b: set<string>)
    requires a <= b
    ensures |a| <= |b|
  {
    if a != {} {
      var e :| e in a;
      SubsetSize(a - {e}, b - {e});
    }
  }

  // ---- The ranking -------------------------------------------------------------------------------------

  predicate ObjectOf(target: string, stems: seq<string>) {
    exists s :: s in stems && (EndsWith(target, s + ".o") || EndsWith(target, s + ".lo"))
  }

  predicate IsObject(target: string) {
    EndsWith(target, ".o") || EndsWith(target, ".lo")
  }

  // The source's own objects first, then other objects, then the rest.
  function Rank(target: string, stems: seq<string>): (r: nat)
    ensures r < 3
  {
    if ObjectOf(target, stems) then 0
    else if IsObject(target) then 1
    else 2
  }

  function OfRank(targets: seq<string>, stems: seq<string>, rank: nat): seq<string> {
    if targets == [] then []
    else (if Rank(targets[0], stems) == rank then [targets[0]] else []) + OfRank(targets[1..], stems, rank)
  }

  // In the order of their ranks.
  ghost predicate InRankOrder(s: seq<string>, stems: seq<string>) {
    forall i, j :: 0 <= i < j < |s| ==> Rank(s[i], stems) <= Rank(s[j], stems)
  }

  ghost predicate SameInRanks(a: seq<string>, b: seq<string>, stems: seq<string>) {
    forall rank: nat :: OfRank(a, stems, rank) == OfRank(b, stems, rank)
  }

  // What a stable sort by rank makes of the targets.
  function Sorted(targets: seq<string>, stems: seq<string>): seq<string> {
    OfRank(targets, stems, 0) + OfRank(targets, stems, 1) + OfRank(targets, stems, 2)
  }

  lemma {:induction false} OfRankElements(targets: seq<string>, stems: seq<string>, rank: nat)
    ensures forall t :: t in OfRank(targets, stems, rank) ==> Rank(t, stems) == rank
  {
    if targets != [] {
      OfRankElements(targets[1..], stems, rank);
    }
  }

  lemma {:induction false} OfRankTwice(targets: seq<string>, stems: seq<string>, rank: nat, r: nat)
    ensures OfRank(OfRank(targets, stems, rank), stems, r) == if r == rank then OfRank(targets, stems, rank) else []
  {
    if targets != [] {
      OfRankTwice(targets[1..], stems, rank, r);
      var rest := OfRank(targets[1..], stems, rank);
      assert ([targets[0]] + rest)[1..] == rest && [] + rest == rest;
    }
  }

  lemma OfRankHead(s: seq<string>, stems: seq<string>, rank: nat)
    requires s != []
    ensures OfRank(s, stems, rank) == (if Rank(s[0], stems) == rank then [s[0]] else []) + OfRank(s[1..], stems, rank)
  {
  }

  lemma {:induction false} OfRankConcat(a: seq<string>, b: seq<string>, stems: seq<string>, rank: nat)
    ensures OfRank(a + b, stems, rank) == OfRank(a, stems, rank) + OfRank(b, stems, rank)
  {
    hide Rank;
    if a == [] {
      assert a + b == b;
    } else {
      assert (a + b)[1..] == a[1..] + b;
      OfRankConcat(a[1..], b, stems, rank);
    }
  }

  // One more target goes to one of three places.
  lemma IntoRanks(t: string, rank: nat, a: seq<string>, b: seq<string>, c: seq<string>)
    requires rank < 3
    ensures
      var x, y, z :=
        (if rank == 0 then [t] else []) + a, (if rank == 1 then [t] else []) + b, (if rank == 2 then [t] else []) + c;
      multiset(x + y + z) == multiset([t] + (a + b + c))
  {
    var none: seq<string> := [];
    assert none + a == a && none + b == b && none + c == c;
  }

  lemma {:induction false} SortedElements(targets: seq<string>, stems: seq<string>)
    ensures multiset(Sorted(targets, stems)) == multiset(targets)
  {
    if targets != [] {
      var t, rest := targets[0], targets[1..];
      SortedElements(rest, stems);
      OfRankHead(targets, stems, 0);
      OfRankHead(targets, stems, 1);
      OfRankHead(targets, stems, 2);
      assert targets == [t] + rest;
      var rank := Rank(t, stems);
      hide Rank, OfRank;
      IntoRanks(t, rank, OfRank(rest, stems, 0), OfRank(rest, stems, 1), OfRank(rest, stems, 2));
    }
  }

  /** The sorted targets are the targets in the order of their ranks, those of one rank in
      the order they had. */
  lemma SortedInOrder(targets: seq<string>, stems: seq<string>)
    ensures InRankOrder(Sorted(targets, stems), stems) && SameInRanks(Sorted(targets, stems), targets, stems)
    ensures multiset(Sorted(targets, stems)) == multiset(targets)
  {
    hide Rank, OfRank;
    SortedElements(targets, stems);
    var a, b, c := OfRank(targets, stems, 0), OfRank(targets, stems, 1), OfRank(targets, stems, 2);
    OfRankElements(targets, stems, 0);
    OfRankElements(targets, stems, 1);
    OfRankElements(targets, stems, 2);
    forall rank: nat ensures OfRank(Sorted(targets, stems), stems, rank) == OfRank(targets, stems, rank) {
      OfRankConcat(a + b, c, stems, rank);
      OfRankConcat(a, b, stems, rank);
      OfRankTwice(targets, stems, 0, rank);
      OfRankTwice(targets, stems, 1, rank);
      OfRankTwice(targets, stems, 2, rank);
      if rank > 2 {
        OnlyThree(targets, stems, rank);
      }
    }
    forall i | 0 <= i < |a + b + c| ensures Rank((a + b + c)[i], stems) == if i < |a| then 0 else if i < |a + b| then 1 else 2 {
    }
  }

  lemma {:induction false} OnlyThree(targets: seq<string>, stems: seq<string>, rank: nat)
    requires rank > 2
    ensures OfRank(targets, stems, rank) == []
  {
    if targets != [] {
      OnlyThree(targets[1..], stems, rank);
    }
  }

  /** And there is no other order like that, so any stable sort gives this one. */
  lemma {:induction false} OneOrder(a: seq<string>, b: seq<string>, stems: seq<string>)
    requires InRankOrder(a, stems) && InRankOrder(b, stems) && SameInRanks(a, b, stems)
    ensures a == b
    decreases |a|
  {
    hide Rank, OfRank;
    FirstOf(a, b, stems);
    FirstOf(b, a, stems);
    if a != [] {
      SameHead(a, b, stems, Rank(a[0], stems));
      forall rank: nat ensures OfRank(a[1..], stems, rank) == OfRank(b[1..], stems, rank) {
        SameHead(a, b, stems, rank);
      }
      OneOrder(a[1..], b[1..], stems);
      assert a == [a[0]] + a[1..] && b == [b[0]] + b[1..];
    }
  }

  lemma SameHead(a: seq<string>, b: seq<string>, stems: seq<string>, rank: nat)
    requires a != [] && b != [] && Rank(a[0], stems) == Rank(b[0], stems)
    requires OfRank(a, stems, rank) == OfRank(b, stems, rank)
    ensures OfRank(a[1..], stems, rank) == OfRank(b[1..], stems, rank)
    ensures rank == Rank(a[0], stems) ==> a[0] == b[0]
  {
    hide Rank, OfRank;
    OfRankHead(a, stems, rank);
    OfRankHead(b, stems, rank);
    if rank == Rank(a[0], stems) {
      var x, y := OfRank(a, stems, rank), OfRank(b, stems, rank);
      assert x[1..] == OfRank(a[1..], stems, rank) && y[1..] == OfRank(b[1..], stems, rank);
      assert x[0] == a[0] && y[0] == b[0];
    } else {
      assert [] + OfRank(a[1..], stems, rank) == OfRank(a[1..], stems, rank);
      assert [] + OfRank(b[1..], stems, rank) == OfRank(b[1..], stems, rank);
    }
  }

  lemma FirstOf(a: seq<string>, b: seq<string>, stems: seq<string>)
    requires InRankOrder(b, stems) && SameInRanks(a, b, stems)
    ensures a != [] ==> b != [] && Rank(b[0], stems) <= Rank(a[0], stems)
  {
    if a != [] {
      var rank := Rank(a[0], stems);
      assert OfRank(a, stems, rank) == OfRank(b, stems, rank) && OfRank(a, stems, rank) != [];
      OfRankIn(b, stems, rank);
    }
  }

  lemma {:induction false} OfRankIn(s: seq<string>, stems: seq<string>, rank: nat)
    ensures OfRank(s, stems, rank) != [] ==> exists i :: 0 <= i < |s| && Rank(s[i], stems) == rank
  {
    if s != [] {
      OfRankIn(s[1..], stems, rank);
    }
  }

  lemma {:induction false} OfRankByDistance(rules: seq<Rule>, sources: seq<string>, found: seq<string>, stems: seq<string>, rank: nat)
    requires ByDistance(rules, sources, found)
    ensures ByDistance(rules, sources, OfRank(found, stems, rank))
  {
    hide Nearer, Rank;
    if found != [] {
      OfRankByDistance(rules, sources, found[1..], stems, rank);
      OfRankWithin(found[1..], stems, rank);
      var rest := OfRank(found[1..], stems, rank);
      forall j | 0 <= j < |rest| ensures Nearer(rules, sources, found[0], rest[j]) {
        assert rest[j] in rest;
        var i :| 0 <= i < |found[1..]| && found[1..][i] == rest[j];
        assert found[i + 1] == rest[j];
      }
    }
  }

  lemma {:induction false} OfRankWithin(s: seq<string>, stems: seq<string>, rank: nat)
    ensures forall t :: t in OfRank(s, stems, rank) ==> exists i :: 0 <= i < |s| && s[i] == t
  {
    if s != [] {
      OfRankWithin(s[1..], stems, rank);
    }
  }

  // Within a rank the sorted targets keep the order of their distances.
  lemma SortedByDistance(rules: seq<Rule>, sources: seq<string>, found: seq<string>, stems: seq<string>)
    requires ByDistance(rules, sources, found)
    ensures
      var s := Sorted(found, stems);
      forall i, j :: 0 <= i < j < |s| && Rank(s[i], stems) == Rank(s[j], stems) ==> Nearer(rules, sources, s[i], s[j])
  {
    hide Nearer, Rank, OfRank;
    var a, b, c := OfRank(found, stems, 0), OfRank(found, stems, 1), OfRank(found, stems, 2);
    OfRankElements(found, stems, 0);
    OfRankElements(found, stems, 1);
    OfRankElements(found, stems, 2);
    OfRankByDistance(rules, sources, found, stems, 0);
    OfRankByDistance(rules, sources, found, stems, 1);
    OfRankByDistance(rules, sources, found, stems, 2);
    var s := a + b + c;
    forall i, j | 0 <= i < j < |s| && Rank(s[i], stems) == Rank(s[j], stems) ensures Nearer(rules, sources, s[i], s[j]) {
      assert Rank(s[i], stems) == if i < |a| then 0 else if i < |a| + |b| then 1 else 2;
      assert Rank(s[j], stems) == if j < |a| then 0 else if j < |a| + |b| then 1 else 2;
    }
  }

  // Both are objects of the source, or both are other objects, or neither is an object.
  predicate SameKind(a: string, b: string, stems: seq<string>) {
    (ObjectOf(a, stems) <==> ObjectOf(b, stems)) && (IsObject(a) <==> IsObject(b))
  }

  /** The objects of the source come first, then the other objects, then all else, and targets of
      one kind in the order in which they were found. */
  ghost predicate ObjectsFirst(targets: seq<string>, found: seq<string>, stems: seq<string>) {
    (forall i, j :: 0 <= i < j < |targets| ==>
      (ObjectOf(targets[j], stems) ==> ObjectOf(targets[i], stems)) && (IsObject(targets[j]) ==> IsObject(targets[i]))) &&
    forall i, j, k, l ::
      0 <= i < j < |targets| && 0 <= k < |found| && 0 <= l < |found| &&
      targets[i] == found[k] && targets[j] == found[l] && SameKind(found[k], found[l], stems) ==>
        k < l
  }

  lemma ObjectEnds(target: string, stems: seq<string>)
    requires ObjectOf(target, stems)
    ensures IsObject(target)
  {
    var s :| s in stems && (EndsWith(target, s + ".o") || EndsWith(target, s + ".lo"));
    var o, lo := s + ".o", s + ".lo";
    assert o[|s|..] == ".o" && lo[|s|..] == ".lo";
    if EndsWith(target, o) {
      assert target[|target| - 2..] == target[|target| - |o|..][|s|..];
    } else {
      assert target[|target| - 3..] == target[|target| - |lo|..][|s|..];
    }
  }

  lemma RankOfKind(target: string, stems: seq<string>)
    ensures Rank(target, stems) == 0 <==> ObjectOf(target, stems)
    ensures Rank(target, stems) == 2 <==> !IsObject(target)
  {
    if ObjectOf(target, stems) {
      ObjectEnds(target, stems);
    }
  }

  // Targets of one rank were found in the order in which they stand.
  lemma {:induction false} OfRankOrder(found: seq<string>, stems: seq<string>, rank: nat, i: nat, j: nat) returns (k: nat, l: nat)
    requires i < j < |OfRank(found, stems, rank)|
    ensures k < l < |found| && found[k] == OfRank(found, stems, rank)[i] && found[l] == OfRank(found, stems, rank)[j]
    decreases |found|
  {
    var s := OfRank(found, stems, rank);
    var rest := OfRank(found[1..], stems, rank);
    if Rank(found[0], stems) != rank {
      assert s == rest;
      k, l := OfRankOrder(found[1..], stems, rank, i, j);
      k, l := k + 1, l + 1;
    } else if i > 0 {
      k, l := OfRankOrder(found[1..], stems, rank, i - 1, j - 1);
      k, l := k + 1, l + 1;
    } else {
      OfRankWithin(found[1..], stems, rank);
      assert rest[j - 1] in rest;
      l :| 0 <= l < |found[1..]| && found[1..][l] == rest[j - 1];
      k, l := 0, l + 1;
    }
  }

  // In an ordered list the targets of a rank stand as in the list of them.
  lemma {:induction false} PlaceInRank(s: seq<string>, stems: seq<string>, i: nat, j: nat) returns (k: nat, l: nat)
    requires i < j < |s| && Rank(s[i], stems) == Rank(s[j], stems)
    ensures
      var r := OfRank(s, stems, Rank(s[i], stems));
      k < l < |r| && r[k] == s[i] && r[l] == s[j]
    decreases |s|
  {
    hide Rank;
    var rank := Rank(s[i], stems);
    var rest := OfRank(s[1..], stems, rank);
    if i > 0 {
      k, l := PlaceInRank(s[1..], stems, i - 1, j - 1);
      if Rank(s[0], stems) == rank {
        k, l := k + 1, l + 1;
      }
    } else {
      l := OnePlaceInRank(s[1..], stems, j - 1);
      k, l := 0, l + 1;
    }
  }

  lemma {:induction false} OnePlaceInRank(s: seq<string>, stems: seq<string>, j: nat) returns (l: nat)
    requires j < |s|
    ensures l < |OfRank(s, stems, Rank(s[j], stems))| && OfRank(s, stems, Rank(s[j], stems))[l] == s[j]
    decreases |s|
  {
    hide Rank;
    l := 0;
    if j > 0 {
      l := OnePlaceInRank(s[1..], stems, j - 1);
      if Rank(s[0], stems) == Rank(s[j], stems) {
        l := l + 1;
      }
    }
  }

  lemma InKinds(targets: seq<string>, found: seq<string>, stems: seq<string>)
    requires InRankOrder(targets, stems) && SameInRanks(targets, found, stems) && NoRepeats(found)
    ensures ObjectsFirst(targets, found, stems)
  {
    hide Rank, OfRank, ObjectOf, IsObject;
    forall t ensures (Rank(t, stems) == 0 <==> ObjectOf(t, stems)) && (Rank(t, stems) == 2 <==> !IsObject(t)) {
      RankOfKind(t, stems);
    }
    forall i, j, k, l | 0 <= i < j < |targets| && 0 <= k < |found| && 0 <= l < |found| &&
      targets[i] == found[k] && targets[j] == found[l] && SameKind(found[k], found[l], stems)
      ensures k < l
    {
      var x, y := PlaceInRank(targets, stems, i, j);
      assert OfRank(targets, stems, Rank(targets[i], stems)) == OfRank(found, stems, Rank(targets[i], stems));
      var k', l' := OfRankOrder(found, stems, Rank(targets[i], stems), x, y);
      assert k' == k && l' == l;
    }
  }

  /** All the targets that depend on the source, each once, in the order of their ranks, and
      those of one rank with the shorter chains first. */
  method TargetsFromMake(rules: seq<Rule>, sources: seq<string>, stems: seq<string>)
    returns (targets: seq<string>, ghost found: seq<string>)
    ensures forall t :: t in targets <==> Built(rules, sources, t)
    ensures NoRepeats(found) && ByDistance(rules, sources, found) && InMakeOrder(rules, sources, found)
    ensures SameInRanks(targets, found, stems)
    ensures NoRepeats(targets) && InRankOrder(targets, stems) && ObjectsFirst(targets, found, stems)
    ensures forall i, j :: 0 <= i < j < |targets| && Rank(targets[i], stems) == Rank(targets[j], stems) ==>
      Nearer(rules, sources, targets[i], targets[j])
  {
    targets := FindTargets(rules, sources);
    found := targets;
    SortedInOrder(found, stems);
    SortedByDistance(rules, sources, found, stems);
    targets := Sorted(targets, stems);
    forall t ensures t in targets <==> t in found {
      assert t in targets <==> t in multiset(targets);
      assert t in found <==> t in multiset(found);
    }
    StillNoRepeats(found, targets);
    InKinds(targets, found, stems);
  }

  lemma StillNoRepeats(a: seq<string>, b: seq<string>)
    requires NoRepeats(a) && multiset(a) == multiset(b)
    ensures NoRepeats(b)
  {
    forall i, j | 0 <= i < j < |b| ensures b[i] != b[j] {
      if b[i] == b[j] {
        assert b == b[..i] + [b[i]] + b[i + 1..];
        assert b[i + 1..][j - i - 1] == b[j];
        assert multiset(b)[b[i]] >= 2;
        OnceEach(a, b[i]);
      }
    }
  }

  lemma {:induction false} OnceEach(a: seq<string>, e: string)
    requires NoRepeats(a)
    ensures multiset(a)[e] <= 1
  {
    if a != [] {
      OnceEach(a[1..], e);
      assert a == [a[0]] + a[1..];
      if e == a[0] {
        assert e !in a[1..];
      }
    }
  }
}
