// What parent_ref_rules brings together in the tree that nest_seqs made, told from the places
// in that tree as nest_seqs sees them.
module RefPlaces {
  import opened Selectors
  import opened StyleTree
  import opened MergePass
  import opened OutOfWay
  import opened Clashes
  import opened DropCondition
  import opened ListedTwice
  import opened NestedPlaces

  // ---- The tree ------------------------------------------------------------------------------------

  ghost predicate SingleRules(spelling: map<Key, Member>, ns: seq<Node>, inRule: bool) {
    forall n :: n in ns ==> SingleRule(spelling, n, inRule)
  }

  ghost predicate SingleRule(spelling: map<Key, Member>, n: Node, inRule: bool) {
    match n
    case Leaf(_) => true
    case Directive(_, kids) => !inRule && SingleRules(spelling, kids, false)
    case Rule(sels, kids) =>
      |sels| == 1 && |sels[0]| == 1 && SpelledMember(spelling, sels[0][0]) && SingleRules(spelling, kids, true)
  }

  predicate SpelledMember(spelling: map<Key, Member>, m: Member) {
    m != NEWLINE && Plain(m) && KeyOf(m) in spelling && spelling[KeyOf(m)] == m
  }

  lemma {:induction false} SinglesOf(spelling: map<Key, Member>, ns: seq<Node>, under: bool, above: bool, inRule: bool)
    requires Ready(NestSeqs, ns, under) && Ready(ParentRefs, ns, above) && Shaped(spelling, ns, inRule)
    ensures SingleRules(spelling, ns, inRule)
  {
    hide KeyOf;
    forall n | n in ns ensures SingleRule(spelling, n, inRule) {
      assert ReadyNode(NestSeqs, n, under) && ReadyNode(ParentRefs, n, above) && ShapedNode(spelling, n, inRule);
      match n {
        case Leaf(_) =>
        case Directive(_, kids) => SinglesOf(spelling, kids, under, above, false);
        case Rule(sels, kids) =>
          var s := sels[0];
          assert s in sels && Clean(s) == s && s[0] in s;
          SinglesOf(spelling, kids, EndsInCompound(Clean(s)), EndsInCompound(Clean(s)), true);
      }
    }
  }

  // A rule as the two passes see it.
  lemma RuleSteps(spelling: map<Key, Member>, n: Node)
    requires n.Rule? && |n.sels| == 1 && |n.sels[0]| == 1 && SpelledMember(spelling, n.sels[0][0])
    ensures
      var m := n.sels[0][0];
      Open(NestSeqs, n) && StartOf(NestSeqs, n) == [ByKey(KeyOf(m))] && Spell(spelling, ByKey(KeyOf(m))) == m &&
      (Open(ParentRefs, n) <==> m.Compound?) && (Open(ParentRefs, n) ==> StartOf(ParentRefs, n) == SimplesOf(m))
  {
    hide KeyOf;
    var m := n.sels[0][0];
    assert n.sels[0] == [m] && Clean([m]) == [m];
    if m.Compound? {
      StepsAreSimples(m);
    }
  }

  lemma StepsAreSimples(m: Member)
    requires m.Compound? && Plain(m)
    ensures SelectorReady(ParentRefs, [m]) && Merges(ParentRefs, [m]) && Steps(ParentRefs, [m]) == SimplesOf(m)
  {
    hide Steps;
    FirstParts(m);
    var rest := m.simples[1..];
    if rest != [] {
      StepsOfRest(rest);
    }
    StepsUnfold([m]);
    SimplesParts(m);
  }

  lemma SimplesParts(m: Member)
    requires m.Compound? && m.simples != []
    ensures SimplesOf(m) == [ByMember(Compound([m.simples[0]]))] + RestSteps(m.simples[1..])
  {
  }

  lemma FirstParts(m: Member)
    requires m.Compound? && Plain(m)
    ensures
      var rest := m.simples[1..];
      SelectorReady(ParentRefs, [m]) && Merges(ParentRefs, [m]) && Parent !in rest &&
      Head(ParentRefs, [m]) == Compound([m.simples[0]]) &&
      Remainder(ParentRefs, [m]) == if rest == [] then [] else [Compound([Parent] + rest)]
  {
    var ss := m.simples;
    assert ss[0] in ss && ss[..1] == [ss[0]] && forall s :: s in ss[1..] ==> s in ss;
  }

  function RestSteps(rest: seq<Simple>): seq<Token> {
    seq(|rest|, i requires 0 <= i < |rest| => ByMember(Compound([Parent, rest[i]])))
  }

  lemma {:induction false} StepsOfRest(rest: seq<Simple>)
    requires rest != [] && Parent !in rest
    ensures
      var s := [Compound([Parent] + rest)];
      SelectorReady(ParentRefs, s) && Merges(ParentRefs, s) && Steps(ParentRefs, s) == RestSteps(rest)
    decreases |rest|
  {
    hide Steps;
    var s := [Compound([Parent] + rest)];
    RestParts(rest);
    if rest[1..] != [] {
      StepsOfRest(rest[1..]);
    }
    StepsUnfold(s);
    hide Head, Remainder, Merges, SelectorReady;
    assert RestSteps(rest) == [ByMember(Compound([Parent, rest[0]]))] + RestSteps(rest[1..]);
  }

  lemma RestParts(rest: seq<Simple>)
    requires rest != [] && Parent !in rest
    ensures
      var s := [Compound([Parent] + rest)];
      SelectorReady(ParentRefs, s) && Merges(ParentRefs, s) && Head(ParentRefs, s) == Compound([Parent, rest[0]]) &&
      Remainder(ParentRefs, s) == if rest[1..] == [] then [] else [Compound([Parent] + rest[1..])]
  {
    var ss := [Parent] + rest;
    assert ss[..2] == [Parent, rest[0]] && ss[2..] == rest[1..] && ss[1..] == rest;
  }

  lemma StepsUnfold(s: Sequence)
    requires SelectorReady(ParentRefs, s) && Merges(ParentRefs, s)
    ensures
      var rest := Remainder(ParentRefs, s);
      (rest != [] ==> SelectorReady(ParentRefs, rest) && Merges(ParentRefs, rest)) &&
      Steps(ParentRefs, s) == [ByMember(Head(ParentRefs, s))] + if rest == [] then [] else Steps(ParentRefs, rest)
  {
    SplitSelector(ParentRefs, s);
  }

  // ---- Places as parent_ref_rules sees them ---------------------------------------------------------

  function BeforeCombinator(s: Sequence): Sequence {
    if s == [] || s[0].Op? then [] else [s[0]] + BeforeCombinator(s[1..])
  }

  // What is in a rule with a combinator is not seen; the rule itself is where it stands.
  function SeenItem(spelling: map<Key, Member>, item: Item): Item {
    var s := SpellAll(spelling, item.path);
    Item(Simples(BeforeCombinator(s)), if HasCombinator(s) then None else item.decl)
  }

  function Seen(spelling: map<Key, Member>, items: seq<Item>): (r: seq<Item>)
    ensures |r| == |items|
    ensures forall k :: 0 <= k < |r| ==> r[k] == SeenItem(spelling, items[k])
  {
    seq(|items|, k requires 0 <= k < |items| => SeenItem(spelling, items[k]))
  }

  lemma SeenAppend(spelling: map<Key, Member>, a: seq<Item>, b: seq<Item>)
    ensures Seen(spelling, a + b) == Seen(spelling, a) + Seen(spelling, b)
  {
  }

  lemma SeenBelow(spelling: map<Key, Member>, t: Token, item: Item)
    ensures
      var m, below := Spell(spelling, t), SeenItem(spelling, Item([t] + item.path, item.decl));
      if m.Op? then below == Item([], None)
      else below == Item(SimplesOf(m) + SeenItem(spelling, item).path, SeenItem(spelling, item).decl)
  {
    var m, s := Spell(spelling, t), SpellAll(spelling, item.path);
    SpellAppend(spelling, [t], item.path);
    assert SpellAll(spelling, [t]) == [m];
    CombinatorTail([m] + s);
    assert ([m] + s)[1..] == s;
  }

  lemma SeenInside(spelling: map<Key, Member>, t: Token, items: seq<Item>)
    ensures
      var m, below := Spell(spelling, t), Seen(spelling, Inside([t], items));
      if m.Op? then forall k :: 0 <= k < |below| ==> below[k] == Item([], None)
      else below == Inside(SimplesOf(m), Seen(spelling, items))
  {
    forall k | 0 <= k < |items| {
      SeenBelow(spelling, t, items[k]);
    }
    hide SeenItem;
    forall k | 0 <= k < |items| ensures Inside([t], items)[k] == Item([t] + items[k].path, items[k].decl) {
    }
  }

  lemma SeenRule(spelling: map<Key, Member>, t: Token, items: seq<Item>)
    ensures
      var m, seen := Spell(spelling, t), Seen(spelling, RuleItems([t], items));
      if m.Op? then forall k :: 0 <= k < |seen| ==> seen[k] == Item([], None)
      else seen == RuleItems(SimplesOf(m), Seen(spelling, items))
  {
    var m := Spell(spelling, t);
    SeenAppend(spelling, [Item([t], None)], Inside([t], items));
    SeenInside(spelling, t, items);
    SeenBelow(spelling, t, Item([], None));
    assert [t] + [] == [t];
    EmptySeen(spelling);
    assert SimplesOf(m) + [] == SimplesOf(m);
    hide SeenItem;
    assert Seen(spelling, [Item([t], None)]) == [SeenItem(spelling, Item([t], None))];
  }

  lemma EmptySeen(spelling: map<Key, Member>)
    ensures SeenItem(spelling, Item([], None)) == Item([], None)
    ensures forall d :: SeenItem(spelling, Item([], d)) == Item([], d)
  {
    assert SpellAll(spelling, []) == [];
  }

  const HERE: Item := Item([], None)

  // One more item behind the rule around the list.
  lemma SeenCons(x: seq<Item>, a: seq<Item>, b: seq<Item>)
    requires Alike(OnePass, [HERE] + a, [HERE] + b)
    ensures Alike(OnePass, [HERE] + (x + a), [HERE] + (x + b))
  {
    hide Alike;
    var c := [HERE] + x;
    RuleAlike(OnePass, c, HERE, a);
    RuleAlike(OnePass, c, HERE, b);
    AlikeAround(OnePass, c, [HERE] + a, [HERE] + b, []);
    assert c + ([HERE] + a) + [] == c + [HERE] + a && c + ([HERE] + b) + [] == c + [HERE] + b;
    AlikeOther(OnePass, c + [HERE] + a, c + a);
    AlikeTwice(OnePass, c + a, c + [HERE] + a, c + [HERE] + b);
    AlikeTwice(OnePass, c + a, c + [HERE] + b, c + b);
    assert c + a == [HERE] + (x + a) && c + b == [HERE] + (x + b);
  }

  // Rules that are not seen say nothing.
  lemma {:induction false} HereAgain(x: seq<Item>, a: seq<Item>)
    requires forall k :: 0 <= k < |x| ==> x[k] == HERE
    ensures Alike(OnePass, [HERE] + (x + a), [HERE] + a)
    decreases |x|
  {
    hide Alike;
    if x == [] {
      assert x + a == a;
      AlikeSame(OnePass, [HERE] + a);
    } else {
      var rest := x[1..];
      HereAgain(rest, a);
      RuleAlike(OnePass, [HERE], HERE, rest + a);
      assert [HERE] + (x + a) == [HERE] + [HERE] + (rest + a);
      AlikeTwice(OnePass, [HERE] + (x + a), [HERE] + (rest + a), [HERE] + a);
    }
  }

  /** What is seen of the places comes together as the items of parent_ref_rules do. */
  lemma {:induction false} SeenAlike(spelling: map<Key, Member>, ns: seq<Node>, inRule: bool)
    requires SingleRules(spelling, ns, inRule)
    ensures Alike(OnePass, [HERE] + Seen(spelling, Items(NestSeqs, ns)), [HERE] + Items(ParentRefs, ns))
    decreases ns
  {
    hide Alike, Seen, SeenItem;
    if ns == [] {
      SeenNothing(spelling);
      AlikeSame(OnePass, [HERE] + []);
    } else {
      var n, tail := ns[0], ns[1..];
      assert ns == [n] + tail && SingleRule(spelling, n, inRule) && SingleRules(spelling, tail, inRule);
      SeenAlike(spelling, tail, inRule);
      ItemsCons(NestSeqs, n, tail);
      ItemsCons(ParentRefs, n, tail);
      SeenAppend(spelling, NodeItems(NestSeqs, n), Items(NestSeqs, tail));
      var a, b := Seen(spelling, Items(NestSeqs, tail)), Items(ParentRefs, tail);
      match n {
        case Leaf(d) =>
          LeafSeen(spelling, d);
          SeenCons([Item([], Some(d))], a, b);
        case Directive(_, _) =>
          SeenNothing(spelling);
          assert [] + a == a && [] + b == b;
        case Rule(sels, kids) =>
          RuleSteps(spelling, n);
          var t, m := ByKey(KeyOf(sels[0][0])), sels[0][0];
          SeenRule(spelling, t, Items(NestSeqs, kids));
          if m.Op? {
            var x := Seen(spelling, NodeItems(NestSeqs, n));
            HereAgain(x, a);
            assert [] + b == b;
            AlikeTwice(OnePass, [HERE] + (x + a), [HERE] + a, [HERE] + b);
          } else {
            SeenAlike(spelling, kids, true);
            OpenSeen(SimplesOf(m), Seen(spelling, Items(NestSeqs, kids)), Items(ParentRefs, kids), a, b);
          }
      }
    }
  }

  lemma SeenNothing(spelling: map<Key, Member>)
    ensures Seen(spelling, []) == []
  {
  }

  lemma LeafSeen(spelling: map<Key, Member>, d: Decl)
    ensures Seen(spelling, [Item([], Some(d))]) == [Item([], Some(d))]
  {
    EmptySeen(spelling);
  }

  lemma OpenSeen(path: seq<Token>, i: seq<Item>, j: seq<Item>, a: seq<Item>, b: seq<Item>)
    requires Alike(OnePass, [HERE] + i, [HERE] + j) && Alike(OnePass, [HERE] + a, [HERE] + b)
    ensures Alike(OnePass, [HERE] + (RuleItems(path, i) + a), [HERE] + (RuleItems(path, j) + b))
  {
    hide Alike;
    AlikeInside(OnePass, path, [HERE] + i, [HERE] + j);
    RuleInside(path, i);
    RuleInside(path, j);
    var x, y := RuleItems(path, i), RuleItems(path, j);
    AlikeAround(OnePass, [HERE], x, y, a);
    SeenCons(y, a, b);
    assert [HERE] + x + a == [HERE] + (x + a) && [HERE] + y + a == [HERE] + (y + a);
    AlikeTwice(OnePass, [HERE] + (x + a), [HERE] + (y + a), [HERE] + (y + b));
  }

  lemma RuleInside(path: seq<Token>, items: seq<Item>)
    ensures Inside(path, [HERE] + items) == RuleItems(path, items)
  {
    InsideAppend(path, [HERE], items);
    assert path + [] == path;
    assert Inside(path, [HERE]) == [Item(path, None)];
  }

  lemma SeenAsItems(spelling: map<Key, Member>, ns: seq<Node>, inRule: bool)
    requires SingleRules(spelling, ns, inRule)
    ensures Clash(OnePass, Seen(spelling, Items(NestSeqs, ns))) <==> Clash(OnePass, Items(ParentRefs, ns))
  {
    hide Alike, Seen, Clash, Items;
    SeenAlike(spelling, ns, inRule);
    AlikeClash(OnePass, [HERE] + Seen(spelling, Items(NestSeqs, ns)), [HERE] + Items(ParentRefs, ns));
    WithoutHere(Seen(spelling, Items(NestSeqs, ns)));
    WithoutHere(Items(ParentRefs, ns));
  }

  lemma WithoutHere(items: seq<Item>)
    ensures Clash(OnePass, [HERE] + items) <==> Clash(OnePass, items)
  {
    InsideNothing(items);
    HeadedClash(OnePass, [], items);
  }
}
