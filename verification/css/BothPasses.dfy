// What both passes bring together, told from the places before them.
module BothPasses {
  import opened Selectors
  import opened StyleTree
  import opened MergePass
  import opened OtherPasses
  import opened OutOfWay
  import opened Clashes
  import opened DropCondition
  import opened ListedTwice
  import opened NestedPlaces
  import opened RefPlaces

  // ---- Selectors without combinators -----------------------------------------------------------------

  ghost predicate NoCombinators(a: seq<Token>) {
    forall t :: t in a ==> !IsCombinator(t)
  }

  lemma {:induction false} SimplesPlain(s: Sequence)
    requires !HasCombinator(s)
    ensures NoCombinators(Simples(s))
  {
    if s != [] {
      CombinatorTail(s);
      SimplesPlain(s[1..]);
    }
  }

  lemma {:induction false} BeforePlain(s: Sequence)
    ensures !HasCombinator(BeforeCombinator(s))
    ensures !HasCombinator(s) ==> BeforeCombinator(s) == s
  {
    if s != [] {
      CombinatorTail(s);
      BeforePlain(s[1..]);
      if s[0].Compound? {
        var b := BeforeCombinator(s);
        assert b[1..] == BeforeCombinator(s[1..]);
        CombinatorTail(b);
        assert s == [s[0]] + s[1..];
      }
    }
  }

  lemma {:induction false} BeforeSplits(s: Sequence) returns (c: Token, rest: seq<Token>)
    requires HasCombinator(s)
    ensures IsCombinator(c) && Simples(s) == Simples(BeforeCombinator(s)) + ([c] + rest)
    decreases |s|
  {
    CombinatorTail(s);
    if s[0].Op? {
      c, rest := ByMember(s[0]), Simples(s[1..]);
      assert Simples(s) == [c] + rest && Simples(BeforeCombinator(s)) == [];
    } else {
      c, rest := BeforeSplits(s[1..]);
      var b := BeforeCombinator(s);
      assert b[1..] == BeforeCombinator(s[1..]) && b[0] == s[0];
      Assoc(SimplesOf(s[0]), Simples(b[1..]), [c] + rest);
    }
  }

  lemma {:induction false} BesideComparable(a: seq<Token>, b: seq<Token>)
    requires NoCombinators(b)
    ensures Beside(a, b) <==> Comparable(a, b)
  {
    if a != [] && b != [] {
      assert b[0] in b && forall t :: t in b[1..] ==> t in b;
      if a[0] == b[0] {
        BesideComparable(a[1..], b[1..]);
        assert a == [a[0]] + a[1..] && b == [b[0]] + b[1..];
        PrefixInside([a[0]], a[1..], b[1..]);
        PrefixInside([a[0]], b[1..], a[1..]);
      }
    }
  }

  lemma {:induction false} BesideTurns(a: seq<Token>, b: seq<Token>, c: Token, rest: seq<Token>)
    requires NoCombinators(a) && NoCombinators(b) && IsCombinator(c)
    ensures Beside(a, b + ([c] + rest)) <==> Comparable(a, b)
  {
    if b == [] {
      assert b + ([c] + rest) == [c] + rest;
      assert a != [] ==> a[0] in a;
    } else if a != [] {
      assert (b + ([c] + rest))[1..] == b[1..] + ([c] + rest);
      assert b[0] in b && (forall t :: t in b[1..] ==> t in b) && forall t :: t in a[1..] ==> t in a;
      if a[0] == b[0] {
        BesideTurns(a[1..], b[1..], c, rest);
        assert a == [a[0]] + a[1..] && b == [b[0]] + b[1..];
        PrefixInside([a[0]], a[1..], b[1..]);
        PrefixInside([a[0]], b[1..], a[1..]);
      }
    }
  }

  // For a place without combinators the other one is in the way when what is seen of it is.
  lemma PassesSeen(v: Sequence, w: Sequence)
    requires !HasCombinator(v)
    ensures OutOfTheWay(v, w) <==> Comparable(Simples(v), Simples(BeforeCombinator(w)))
  {
    SimplesPlain(v);
    BeforePlain(w);
    SimplesPlain(BeforeCombinator(w));
    if HasCombinator(w) {
      var c, rest := BeforeSplits(w);
      BesideTurns(Simples(v), Simples(BeforeCombinator(w)), c, rest);
    } else {
      BesideComparable(Simples(v), Simples(w));
    }
  }

  ghost predicate Proper(s: Sequence) {
    forall m :: m in s ==> m.Compound? && Plain(m)
  }

  // Only the first simple selector of a compound has no "&" in front of it.
  predicate StartsMember(t: Token) {
    t.ByMember? && t.member.Compound? && |t.member.simples| == 1
  }

  lemma SimplesHead(m: Member, s: Sequence)
    requires m.Compound? && Plain(m) && Proper(s)
    ensures
      var a := Simples([m] + s);
      |a| == |m.simples| + |Simples(s)| && a[|m.simples|..] == Simples(s) && |m.simples| > 0 &&
      (forall i :: 0 <= i < |m.simples| ==> a[i] == SimplesOf(m)[i]) &&
      (forall i :: 0 < i < |m.simples| ==> !StartsMember(a[i])) && (s != [] ==> Simples(s) != [] && StartsMember(Simples(s)[0]))
  {
    assert ([m] + s)[1..] == s;
    if s != [] {
      assert s[0] in s;
      assert Simples(s)[0] == SimplesOf(s[0])[0];
    } else {
      assert Simples(s) == [];
    }
  }

  lemma {:induction false} SimplesInjective(s: Sequence, t: Sequence)
    requires Proper(s) && Proper(t) && Simples(s) == Simples(t)
    ensures s == t
  {
    if s == [] || t == [] {
      NoneSimples(s);
      NoneSimples(t);
    } else {
      var a, x, y := Simples(s), |s[0].simples|, |t[0].simples|;
      assert s == [s[0]] + s[1..] && t == [t[0]] + t[1..] && s[0] in s && t[0] in t;
      SimplesHead(s[0], s[1..]);
      SimplesHead(t[0], t[1..]);
      StartBehind(a, x, s[1..]);
      StartBehind(a, y, t[1..]);
      assert x == y;
      SimplesInjective(s[1..], t[1..]);
      SameMember(s[0], t[0]);
    }
  }

  lemma NoneSimples(s: Sequence)
    requires Proper(s)
    ensures s != [] ==> Simples(s) != []
  {
    if s != [] {
      assert s[0] in s;
    }
  }

  // What follows a compound starts a member.
  lemma StartBehind(a: seq<Token>, x: nat, s: Sequence)
    requires x <= |a| && a[x..] == Simples(s) && (s != [] ==> Simples(s) != [] && StartsMember(Simples(s)[0]))
    ensures x < |a| ==> StartsMember(a[x])
  {
    if x < |a| {
      assert a[x..][0] == a[x];
    }
  }

  lemma SameMember(m: Member, n: Member)
    requires m.Compound? && n.Compound? && |m.simples| == |n.simples| && m.simples != []
    requires forall i :: 0 <= i < |m.simples| ==> SimplesOf(m)[i] == SimplesOf(n)[i]
    ensures m == n
  {
    forall i | 0 <= i < |m.simples| ensures m.simples[i] == n.simples[i] {
      var a, b := SimplesOf(m)[i].member.simples, SimplesOf(n)[i].member.simples;
      assert a[|a| - 1] == m.simples[i] && b[|b| - 1] == n.simples[i];
    }
  }

  // ---- Places ------------------------------------------------------------------------------------------

  ghost predicate ProperPath(spelling: map<Key, Member>, path: seq<Token>) {
    forall t :: t in path ==>
      t.ByKey? && t.key in spelling && KeyOf(spelling[t.key]) == t.key && SpelledMember(spelling, spelling[t.key])
  }

  ghost predicate ProperItems(spelling: map<Key, Member>, items: seq<Item>) {
    forall k :: 0 <= k < |items| ==> ProperPath(spelling, items[k].path)
  }

  lemma SpellProper(spelling: map<Key, Member>, path: seq<Token>)
    requires ProperPath(spelling, path) && !HasCombinator(SpellAll(spelling, path))
    ensures Proper(SpellAll(spelling, path))
  {
    var s := SpellAll(spelling, path);
    forall k | 0 <= k < |s| ensures s[k].Compound? && Plain(s[k]) {
      assert path[k] in path && s[k] in s;
    }
  }

  lemma SpellInjective(spelling: map<Key, Member>, u: seq<Token>, v: seq<Token>)
    requires ProperPath(spelling, u) && ProperPath(spelling, v) && SpellAll(spelling, u) == SpellAll(spelling, v)
    ensures u == v
  {
    hide KeyOf;
    var s := SpellAll(spelling, u);
    forall k | 0 <= k < |u| ensures u[k] == v[k] {
      assert u[k] in u && v[k] in v && s[k] == Spell(spelling, u[k]) && SpellAll(spelling, v)[k] == Spell(spelling, v[k]);
    }
  }

  lemma {:induction false} ItemsProper(spelling: map<Key, Member>, ns: seq<Node>, inRule: bool)
    requires SingleRules(spelling, ns, inRule)
    ensures ProperItems(spelling, Items(NestSeqs, ns))
    decreases ns
  {
    hide KeyOf, ProperPath;
    if ns == [] {
    } else {
      var n, tail := ns[0], ns[1..];
      assert ns == [n] + tail && SingleRule(spelling, n, inRule) && SingleRules(spelling, tail, inRule);
      ItemsProper(spelling, tail, inRule);
      ItemsCons(NestSeqs, n, tail);
      EmptyProper(spelling);
      if n.Rule? {
        RuleSteps(spelling, n);
        var t, kids := ByKey(KeyOf(n.sels[0][0])), Items(NestSeqs, n.children);
        ItemsProper(spelling, n.children, true);
        forall path | ProperPath(spelling, path) ensures ProperPath(spelling, [t] + path) {
          OneMoreProper(spelling, n.sels[0][0], path);
        }
        assert [t] + [] == [t];
      }
    }
  }

  lemma EmptyProper(spelling: map<Key, Member>)
    ensures ProperPath(spelling, [])
  {
  }

  lemma OneMoreProper(spelling: map<Key, Member>, m: Member, path: seq<Token>)
    requires SpelledMember(spelling, m) && ProperPath(spelling, path)
    ensures ProperPath(spelling, [ByKey(KeyOf(m))] + path)
  {
  }

  // Two places without combinators come together for both when they do for parent_ref_rules.
  lemma PlainClash(spelling: map<Key, Member>, items: seq<Item>, i: nat, j: nat)
    requires ClashAt(BothPasses(spelling), items, i, j) && !HasCombinator(SpellAll(spelling, items[i].path))
    ensures ClashAt(OnePass, Seen(spelling, items), i, j)
  {
    hide OutOfTheWay;
    var v := SpellAll(spelling, items[i].path);
    BeforePlain(v);
    forall k | i < k < j ensures Passes(OnePass, Seen(spelling, items)[k].path, Seen(spelling, items)[i].path) {
      PassesSeen(v, SpellAll(spelling, items[k].path));
    }
  }

  lemma SeenClash(spelling: map<Key, Member>, items: seq<Item>)
    requires ProperItems(spelling, items) && Clash(OnePass, Seen(spelling, items))
    ensures Clash(BothPasses(spelling), items)
  {
    hide OutOfTheWay, HasCombinator, Simples;
    var i: nat, j: nat :| ClashAt(OnePass, Seen(spelling, items), i, j);
    var v, w := SpellAll(spelling, items[i].path), SpellAll(spelling, items[j].path);
    BeforePlain(v);
    BeforePlain(w);
    SpellProper(spelling, items[i].path);
    SpellProper(spelling, items[j].path);
    SimplesInjective(v, w);
    SpellInjective(spelling, items[i].path, items[j].path);
    forall k | i < k < j ensures Passes(BothPasses(spelling), items[k].path, items[i].path) {
      PassesSeen(v, SpellAll(spelling, items[k].path));
    }
    assert ClashAt(BothPasses(spelling), items, i, j);
  }

  // ---- Rules with a combinator ---------------------------------------------------------------------------

  // In some rule that parent_ref_rules leaves alone, places come together.
  ghost predicate ClosedClash(way: Way, ns: seq<Node>)
    decreases ns
  {
    exists n :: n in ns && n.Rule? &&
      if Open(ParentRefs, n) then ClosedClash(way, n.children) else Clash(way, Items(NestSeqs, n.children))
  }

  lemma ClashWithin(way: Way, a: seq<Item>, b: seq<Item>, c: seq<Item>)
    requires Clash(way, b)
    ensures Clash(way, a + b + c)
  {
    hide Passes;
    var i: nat, j: nat :| ClashAt(way, b, i, j);
    var all := a + b + c;
    forall k | |a| + i < k < |a| + j ensures Passes(way, all[k].path, all[|a| + i].path) {
      assert all[k] == b[k - |a|];
    }
    assert ClashAt(way, all, |a| + i, |a| + j);
  }

  lemma ChildClash(way: Way, ns: seq<Node>, n: Node)
    requires n in ns && Open(NestSeqs, n) && Clash(way, Items(NestSeqs, n.children))
    ensures Clash(way, Items(NestSeqs, ns))
  {
    hide Clash;
    var k :| 0 <= k < |ns| && ns[k] == n;
    var path, kids := StartOf(NestSeqs, n), Items(NestSeqs, n.children);
    assert ns == ns[..k] + [n] + ns[k + 1..];
    ThreeItems(NestSeqs, ns[..k], n, ns[k + 1..]);
    InsideClash(way, path, kids);
    HeadedClash(way, path, kids);
    ClashWithin(way, Items(NestSeqs, ns[..k]), NodeItems(NestSeqs, n), Items(NestSeqs, ns[k + 1..]));
  }

  lemma {:induction false} ClosedClashes(spelling: map<Key, Member>, ns: seq<Node>, inRule: bool)
    requires SingleRules(spelling, ns, inRule) && ClosedClash(BothPasses(spelling), ns)
    ensures Clash(BothPasses(spelling), Items(NestSeqs, ns))
    decreases ns
  {
    hide Clash;
    var way := BothPasses(spelling);
    var n :| n in ns && n.Rule? &&
      if Open(ParentRefs, n) then ClosedClash(way, n.children) else Clash(way, Items(NestSeqs, n.children));
    assert SingleRule(spelling, n, inRule);
    RuleSteps(spelling, n);
    if Open(ParentRefs, n) {
      ClosedClashes(spelling, n.children, true);
    }
    ChildClash(way, ns, n);
  }

  // Two places in one rule.
  lemma PairInside(way: Way, t: Token, items: seq<Item>, i: nat, j: nat)
    requires ClashAt(way, RuleItems([t], items), i, j)
    ensures i > 0 && ClashAt(way, items, i - 1, j - 1) && RuleItems([t], items)[i].path == [t] + items[i - 1].path
  {
    hide Passes;
    var all := RuleItems([t], items);
    SameInside([t], items[i - 1].path, items[j - 1].path);
    forall k | i - 1 < k < j - 1 ensures Passes(way, items[k].path, items[i - 1].path) {
      PassesInside(way, [t], items[k].path, items[i - 1].path);
      assert all[k + 1].path == [t] + items[k].path;
    }
  }

  lemma PairBehind(way: Way, a: seq<Item>, b: seq<Item>, i: nat, j: nat)
    requires ClashAt(way, a + b, i, j)
    ensures j < |a| ==> ClashAt(way, a, i, j)
    ensures |a| <= i ==> ClashAt(way, b, i - |a|, j - |a|)
  {
    hide Passes;
    var all := a + b;
    if j < |a| {
      forall k | i < k < j ensures Passes(way, a[k].path, a[i].path) {
        assert all[k] == a[k];
      }
    }
    if |a| <= i {
      forall k | i - |a| < k < j - |a| ensures Passes(way, b[k].path, b[i - |a|].path) {
        assert all[k + |a|] == b[k];
      }
    }
  }

  // A rule that starts otherwise keeps places with a combinator apart.
  lemma NotAcross(spelling: map<Key, Member>, a: seq<Item>, b: seq<Item>, t: Token, i: nat, j: nat)
    requires ProperItems(spelling, a) && ProperItems(spelling, b)
    requires AllStart(a, t) && OtherFirst(b, t) && i < |a| <= j < |a + b|
    requires HasCombinator(SpellAll(spelling, a[i].path))
    ensures !ClashAt(BothPasses(spelling), a + b, i, j)
  {
    var all := a + b;
    var n: nat :| OtherAt(b, t, n);
    assert all[i] == a[i] && all[j] == b[j - |a|];
    if n < |b| {
      var v, w := a[i].path, b[n].path;
      assert all[|a| + n] == b[n];
      SpellApart(spelling, v, w);
      assert !Passes(BothPasses(spelling), w, v);
    }
  }

  lemma SpellApart(spelling: map<Key, Member>, v: seq<Token>, w: seq<Token>)
    requires ProperPath(spelling, v) && ProperPath(spelling, w) && v != [] && w != [] && v[0] != w[0]
    ensures SpellAll(spelling, v)[0] != SpellAll(spelling, w)[0]
  {
    hide KeyOf;
    assert v[0] in v && w[0] in w;
  }

  lemma {:induction false} OpPair(spelling: map<Key, Member>, ns: seq<Node>, inRule: bool, i: nat, j: nat)
    requires SingleRules(spelling, ns, inRule) && DeepSettled(ns)
    requires ClashAt(BothPasses(spelling), Items(NestSeqs, ns), i, j)
    requires HasCombinator(SpellAll(spelling, Items(NestSeqs, ns)[i].path))
    ensures ClosedClash(BothPasses(spelling), ns)
    decreases ns
  {
    hide Items, ClashAt, HasCombinator, Settled, KeyOf;
    var way := BothPasses(spelling);
    NoPair(way);
    var n, tail := ns[0], ns[1..];
    assert ns == [n] + tail && SingleRule(spelling, n, inRule) && SingleRules(spelling, tail, inRule);
    ItemsCons(NestSeqs, n, tail);
    TailSettled(n, tail);
    var a, b := NodeItems(NestSeqs, n), Items(NestSeqs, tail);
    PairBounds(way, a + b, i, j);
    PairBehind(way, a, b, i, j);
    if i >= |a| {
      OpPair(spelling, tail, inRule, i - |a|, j - |a|);
      var m :| m in tail && m.Rule? &&
        if Open(ParentRefs, m) then ClosedClash(way, m.children) else Clash(way, Items(NestSeqs, m.children));
      assert m in ns;
    } else {
      NotLeaf(spelling, n, i);
      RuleSteps(spelling, n);
      var t := ByKey(KeyOf(n.sels[0][0]));
      ItemsProper(spelling, ns, inRule);
      if j >= |a| {
        RuleItemsInside([t], Items(NestSeqs, n.children));
        FirstOtherTail(n, tail, t);
        OtherFirstItems(NestSeqs, tail, t);
        ProperParts(spelling, a, b);
        NotAcross(spelling, a, b, t, i, j);
      } else {
        OpInRule(spelling, n, t, i, j);
      }
    }
  }

  lemma NoPair(way: Way)
    ensures forall i: nat, j: nat :: !ClashAt(way, Items(NestSeqs, []), i, j)
  {
  }

  lemma PairBounds(way: Way, items: seq<Item>, i: nat, j: nat)
    requires ClashAt(way, items, i, j)
    ensures i < j < |items|
  {
  }

  lemma TailSettled(n: Node, tail: seq<Node>)
    requires DeepSettled([n] + tail)
    ensures DeepSettled(tail) && (!n.Leaf? ==> DeepSettled(n.children)) && Settled(NestSeqs, [n] + tail)
  {
    hide Settled;
    var ns := [n] + tail;
    assert ns[0] == n && ns[1..] == tail && n in ns;
    SettledTail(NestSeqs, ns);
  }

  lemma FirstOtherTail(n: Node, tail: seq<Node>, t: Token)
    requires Settled(NestSeqs, [n] + tail) && Open(NestSeqs, n) && StartOf(NestSeqs, n) == [t]
    ensures FirstOther(NestSeqs, tail, t)
  {
    var ns := [n] + tail;
    assert ns[0] == n && ns[1..] == tail;
    SettledTail(NestSeqs, ns);
  }

  lemma ProperParts(spelling: map<Key, Member>, a: seq<Item>, b: seq<Item>)
    requires ProperItems(spelling, a + b)
    ensures ProperItems(spelling, a) && ProperItems(spelling, b)
  {
    hide ProperPath;
    forall k | 0 <= k < |a| ensures ProperPath(spelling, a[k].path) {
      assert (a + b)[k] == a[k];
    }
    forall k | 0 <= k < |b| ensures ProperPath(spelling, b[k].path) {
      assert (a + b)[|a| + k] == b[k];
    }
  }

  lemma NotLeaf(spelling: map<Key, Member>, n: Node, i: nat)
    requires i < |NodeItems(NestSeqs, n)| && HasCombinator(SpellAll(spelling, NodeItems(NestSeqs, n)[i].path))
    ensures n.Rule?
  {
    assert SpellAll(spelling, []) == [];
  }

  lemma {:induction false} OpInRule(spelling: map<Key, Member>, n: Node, t: Token, i: nat, j: nat)
    requires n.Rule? && SingleRule(spelling, n, false) && DeepSettled(n.children) && t == ByKey(KeyOf(n.sels[0][0]))
    requires ClashAt(BothPasses(spelling), NodeItems(NestSeqs, n), i, j)
    requires HasCombinator(SpellAll(spelling, NodeItems(NestSeqs, n)[i].path))
    ensures
      if Open(ParentRefs, n) then ClosedClash(BothPasses(spelling), n.children)
      else Clash(BothPasses(spelling), Items(NestSeqs, n.children))
    decreases n
  {
    hide Items, Passes, HasCombinator, KeyOf, DeepSettled;
    var way, items := BothPasses(spelling), Items(NestSeqs, n.children);
    RuleSteps(spelling, n);
    PairInside(way, t, items, i, j);
    if Open(ParentRefs, n) {
      var m, path := n.sels[0][0], items[i - 1].path;
      SpellAppend(spelling, [t], path);
      assert SpellAll(spelling, [t]) == [m];
      CombinatorTail([m] + SpellAll(spelling, path));
      assert ([m] + SpellAll(spelling, path))[1..] == SpellAll(spelling, path);
      OpPair(spelling, n.children, true, i - 1, j - 1);
    }
  }

  /** Both passes bring two places together exactly when the second one does, seeing what it
      sees of them, or when that happens within a rule that it leaves alone. */
  lemma ClashCases(spelling: map<Key, Member>, ns: seq<Node>, inRule: bool)
    requires SingleRules(spelling, ns, inRule) && DeepSettled(ns)
    ensures Clash(BothPasses(spelling), Items(NestSeqs, ns)) <==>
      Clash(OnePass, Items(ParentRefs, ns)) || ClosedClash(BothPasses(spelling), ns)
  {
    hide Items, Passes, HasCombinator, Seen, DeepSettled;
    var way, items := BothPasses(spelling), Items(NestSeqs, ns);
    SeenAsItems(spelling, ns, inRule);
    ItemsProper(spelling, ns, inRule);
    if Clash(way, items) {
      var i: nat, j: nat :| ClashAt(way, items, i, j);
      if HasCombinator(SpellAll(spelling, items[i].path)) {
        OpPair(spelling, ns, inRule, i, j);
      } else {
        PlainClash(spelling, items, i, j);
      }
    }
    if Clash(OnePass, Seen(spelling, items)) {
      SeenClash(spelling, items);
    }
    if ClosedClash(way, ns) {
      ClosedClashes(spelling, ns, inRule);
    }
  }

  /** parent_ref_rules drops nothing of a tree that nest_seqs made exactly when its places are
      apart for both passes. */
  lemma {:induction false} RefsSafeIff(spelling: map<Key, Member>, ns: seq<Node>, inRule: bool)
    requires SingleRules(spelling, ns, inRule) && DeepSettled(ns)
    ensures Safe(ParentRefs, ns) <==> Apart(BothPasses(spelling), ns)
    decreases ns, 1
  {
    hide Clash, Items, Apart, Safe, NodeSealed;
    ClashCases(spelling, ns, inRule);
    SealedParts(ns);
    RulesSealedIff(spelling, ns, inRule);
    DirectivesSafeIff(spelling, ns, inRule);
    SafeParts(ns);
    ApartParts(BothPasses(spelling), ns);
  }

  lemma SafeParts(ns: seq<Node>)
    ensures Safe(ParentRefs, ns) <==> !Clash(OnePass, Items(ParentRefs, ns)) && Sealed(ParentRefs, ns)
  {
  }

  ghost predicate SealedRules(ns: seq<Node>) {
    forall n :: n in ns && n.Rule? ==> NodeSealed(ParentRefs, n)
  }

  ghost predicate SafeDirectives(ns: seq<Node>) {
    forall n :: n in ns && n.Directive? ==> Safe(ParentRefs, n.children)
  }

  lemma SealedParts(ns: seq<Node>)
    ensures Sealed(ParentRefs, ns) <==> SealedRules(ns) && SafeDirectives(ns)
  {
    hide Safe;
    forall n | n in ns ensures n.Leaf? ==> NodeSealed(ParentRefs, n) {
    }
    forall n | n in ns ensures n.Directive? ==> (NodeSealed(ParentRefs, n) <==> Safe(ParentRefs, n.children)) {
    }
  }

  lemma {:induction false} DirectivesSafeIff(spelling: map<Key, Member>, ns: seq<Node>, inRule: bool)
    requires SingleRules(spelling, ns, inRule) && DeepSettled(ns)
    ensures SafeDirectives(ns) <==> DirectivesApart(BothPasses(spelling), ns)
    decreases ns, 0
  {
    hide Settled, Safe, Apart;
    forall n | n in ns && n.Directive? ensures Safe(ParentRefs, n.children) <==> Apart(BothPasses(spelling), n.children) {
      assert SingleRule(spelling, n, inRule);
      RefsSafeIff(spelling, n.children, false);
    }
  }

  lemma {:induction false} RulesSealedIff(spelling: map<Key, Member>, ns: seq<Node>, inRule: bool)
    requires SingleRules(spelling, ns, inRule) && DeepSettled(ns)
    ensures SealedRules(ns) <==> !ClosedClash(BothPasses(spelling), ns)
    decreases ns, 0
  {
    hide Settled, Safe, Apart, Clash, Items, KeyOf;
    var way := BothPasses(spelling);
    forall n | n in ns && n.Rule?
      ensures NodeSealed(ParentRefs, n) <==>
        !(if Open(ParentRefs, n) then ClosedClash(way, n.children) else Clash(way, Items(NestSeqs, n.children)))
    {
      assert SingleRule(spelling, n, inRule);
      RuleSealedIff(spelling, n);
    }
  }

  lemma {:induction false} RuleSealedIff(spelling: map<Key, Member>, n: Node)
    requires n.Rule? && SingleRule(spelling, n, false) && DeepSettled(n.children)
    ensures NodeSealed(ParentRefs, n) <==>
      !(if Open(ParentRefs, n) then ClosedClash(BothPasses(spelling), n.children)
        else Clash(BothPasses(spelling), Items(NestSeqs, n.children)))
    decreases n
  {
    hide Settled, Safe, Apart, Clash, Items, KeyOf, DeepSettled;
    var way, kids := BothPasses(spelling), n.children;
    NoDirectivesInRule(spelling, kids);
    if Open(ParentRefs, n) {
      RulesSealedIff(spelling, kids, true);
      SealedParts(kids);
    } else {
      RefsSafeIff(spelling, kids, true);
      ApartParts(way, kids);
    }
  }

  lemma NoDirectivesInRule(spelling: map<Key, Member>, ns: seq<Node>)
    requires SingleRules(spelling, ns, true)
    ensures SafeDirectives(ns) && forall way :: DirectivesApart(way, ns)
  {
    hide Safe, Apart;
    assert forall n :: n in ns ==> SingleRule(spelling, n, true) && !n.Directive?;
  }

  // ---- Lists of selectors ---------------------------------------------------------------------------------

  // Every member of the stylesheet's selectors.
  function Members(ns: seq<Node>): set<Member> {
    if ns == [] then {} else NodeMembers(ns[0]) + Members(ns[1..])
  }

  function NodeMembers(n: Node): set<Member> {
    match n
    case Leaf(_) => {}
    case Directive(_, kids) => Members(kids)
    case Rule(sels, kids) => (set s, m | s in sels && m in Clean(s) :: m) + Members(kids)
  }

  /** Compounds that are equal for the library are written alike: not `.a.b` here and `.b.a`
      there. */
  ghost predicate SpelledAlike(ns: seq<Node>) {
    forall m, n :: m in Members(ns) && n in Members(ns) && KeyOf(m) == KeyOf(n) ==> m == n
  }

  ghost function Spelling(ns: seq<Node>): (r: map<Key, Member>)
    requires SpelledAlike(ns)
    ensures forall m :: m in Members(ns) ==> KeyOf(m) in r && r[KeyOf(m)] == m
  {
    map m | m in Members(ns) :: KeyOf(m) := m
  }

  ghost predicate AllSpelled(spelling: map<Key, Member>, ms: set<Member>) {
    forall m :: m in ms ==> KeyOf(m) in spelling && spelling[KeyOf(m)] == m
  }

  lemma {:induction false} ExpandedShaped(spelling: map<Key, Member>, ns: seq<Node>)
    requires PlainCss(ns) && AllSpelled(spelling, Members(ns))
    ensures Shaped(spelling, Expanded(ns), false)
    decreases ns
  {
    hide KeyOf;
    if ns != [] {
      var n := ns[0];
      assert n in ns;
      ExpandedShaped(spelling, ns[1..]);
      match n {
        case Leaf(_) =>
        case Directive(_, kids) => ExpandedShaped(spelling, kids);
        case Rule(sels, kids) =>
          assert forall s, m :: s in sels && m in Clean(s) ==> m in NodeMembers(n);
          RuleExpandedShaped(spelling, sels, kids);
          if |sels| == 1 {
            assert ExpandRule(sels[1..], kids) == [] && sels == [sels[0]];
            assert ExpandRule(sels, kids) == [n];
          }
      }
    }
  }

  lemma {:induction false} RuleExpandedShaped(spelling: map<Key, Member>, sels: seq<Sequence>, kids: seq<Node>)
    requires (forall s :: s in sels ==> Spelled(spelling, Clean(s))) && forall k :: k in kids ==> k.Leaf?
    ensures Shaped(spelling, ExpandRule(sels, kids), false)
  {
    hide Spelled;
    if sels != [] {
      RuleExpandedShaped(spelling, sels[1..], kids);
      var n := Rule([sels[0]], kids);
      assert sels[0] in sels && Shaped(spelling, kids, true);
      assert forall s :: s in n.sels ==> s == sels[0];
      assert ShapedNode(spelling, n, false);
    }
  }

  lemma SpelledPath(spelling: map<Key, Member>, s: Sequence)
    requires Spelled(spelling, Clean(s))
    ensures SpellAll(spelling, PathOf(s)) == Clean(s)
  {
    hide KeyOf;
    var c := Clean(s);
    forall k | 0 <= k < |c| ensures SpellAll(spelling, PathOf(s))[k] == c[k] {
      assert c[k] in c && PathOf(s)[k] == ByKey(KeyOf(c[k]));
    }
  }

  lemma MeetByBoth(spelling: map<Key, Member>, sels: seq<Sequence>, i: nat, j: nat)
    requires forall s :: s in sels ==> Spelled(spelling, Clean(s))
    ensures MeetBy(BothPasses(spelling), sels, i, j) <==> MeetInAll(sels, i, j)
  {
    hide Spelled, OutOfTheWay, Clean, SpellAll;
    forall k | 0 <= k < |sels| ensures SpellAll(spelling, PathOf(sels[k])) == Clean(sels[k]) {
      assert sels[k] in sels;
      SpelledPath(spelling, sels[k]);
    }
    forall k, l | 0 <= k < |sels| && 0 <= l < |sels|
      ensures Clean(sels[k]) == Clean(sels[l]) ==> PathOf(sels[k]) == PathOf(sels[l])
    {
    }
  }

  lemma {:induction false} NoneMeetByBoth(spelling: map<Key, Member>, ns: seq<Node>)
    requires AllSpelled(spelling, Members(ns))
    ensures NoneMeetBy(BothPasses(spelling), ns) <==> NoneMeetInAll(ns)
  {
    hide MeetBy, MeetInAll, KeyOf;
    forall n | n in ns ensures NodeNoneMeetBy(BothPasses(spelling), n) <==> NodeNoneMeetInAll(n) {
      MembersIn(ns, n);
      match n {
        case Leaf(_) =>
        case Directive(_, kids) => NoneMeetByBoth(spelling, kids);
        case Rule(sels, kids) =>
          assert forall s, m :: s in sels && m in Clean(s) ==> m in NodeMembers(n);
          forall i: nat, j: nat ensures MeetBy(BothPasses(spelling), sels, i, j) <==> MeetInAll(sels, i, j) {
            MeetByBoth(spelling, sels, i, j);
          }
      }
    }
  }

  lemma {:induction false} MembersIn(ns: seq<Node>, n: Node)
    requires n in ns
    ensures NodeMembers(n) <= Members(ns)
  {
    if n != ns[0] {
      MembersIn(ns[1..], n);
    }
  }
}
