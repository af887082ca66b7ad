// When a merging pass loses nothing, told from the list it is given.
module DropCondition {
  import opened Selectors
  import opened StyleTree
  import opened MergePass
  import opened DropCount
  import opened OutOfWay
  import opened Clashes

  // nest_seqs compares heads as selectors, parent_ref_rules as lists.
  function TokenOf(p: Pass, m: Member): Token {
    match p
    case NestSeqs => ByKey(KeyOf(m))
    case ParentRefs => ByMember(m)
  }

  // A rule that the pass takes apart; parent_ref_rules leaves those with a combinator.
  predicate Open(p: Pass, n: Node) {
    n.Rule? && |n.sels| == 1 && SelectorReady(p, n.sels[0]) && Merges(p, n.sels[0])
  }

  function StartOf(p: Pass, n: Node): seq<Token>
    requires Open(p, n)
  {
    Steps(p, n.sels[0])
  }

  lemma SplitSelector(p: Pass, s: Sequence)
    requires SelectorReady(p, s) && Merges(p, s)
    ensures
      var head, rest := [Head(p, s)], Remainder(p, s);
      SelectorReady(p, head) && Merges(p, head) && Head(p, head) == head[0] && Remainder(p, head) == [] &&
      (rest != [] ==> SelectorReady(p, rest) && Merges(p, rest) && SelectorWeight(p, rest) < SelectorWeight(p, s))
  {
    var head, rest := [Head(p, s)], Remainder(p, s);
    if p.NestSeqs? {
      assert Clean(head) == head && Clean(rest) == rest;
    } else {
      var first := s[0].simples[..Firsts(s[0].simples)];
      assert first[..Firsts(first)] == first;
    }
  }

  /** The starts that lead into a rule, one after the other. */
  function Steps(p: Pass, s: Sequence): (r: seq<Token>)
    requires SelectorReady(p, s) && Merges(p, s)
    ensures r != [] && r[0] == TokenOf(p, Head(p, s))
    decreases SelectorWeight(p, s)
  {
    SplitSelector(p, s);
    var rest := Remainder(p, s);
    [TokenOf(p, Head(p, s))] + if rest == [] then [] else Steps(p, rest)
  }

  // The declarations and rules of a list with the starts that lead to them. What stands in
  // a directive, or in a rule that the pass leaves alone, keeps to itself.
  function Items(p: Pass, ns: seq<Node>): seq<Item>
    decreases ns, 0
  {
    if ns == [] then [] else NodeItems(p, ns[0]) + Items(p, ns[1..])
  }

  function NodeItems(p: Pass, n: Node): seq<Item>
    decreases n, 1
  {
    if n.Leaf? then [Item([], Some(n.decl))]
    else if Open(p, n) then RuleItems(Steps(p, n.sels[0]), Items(p, n.children))
    else []
  }

  function RuleItems(path: seq<Token>, items: seq<Item>): seq<Item> {
    [Item(path, None)] + Inside(path, items)
  }

  /** Nowhere in the list, in its directives or in the rules that the pass leaves alone do two
      places of one declaration come together. */
  ghost predicate Safe(p: Pass, ns: seq<Node>)
    decreases ns, 1
  {
    !Clash(OnePass, Items(p, ns)) && Sealed(p, ns)
  }

  ghost predicate Sealed(p: Pass, ns: seq<Node>)
    decreases ns, 0
  {
    forall n :: n in ns ==> NodeSealed(p, n)
  }

  ghost predicate NodeSealed(p: Pass, n: Node)
    decreases n
  {
    n.Leaf? || (if Open(p, n) then Sealed(p, n.children) else Safe(p, n.children))
  }

  // ---- Items of lists ---------------------------------------------------------------------------

  lemma {:induction false} ItemsAppend(p: Pass, a: seq<Node>, b: seq<Node>)
    ensures Items(p, a + b) == Items(p, a) + Items(p, b)
  {
    if a == [] {
      assert a + b == b;
    } else {
      assert (a + b)[1..] == a[1..] + b && (a + b)[0] == a[0];
      ItemsAppend(p, a[1..], b);
      assert Items(p, a + b) == NodeItems(p, a[0]) + Items(p, a[1..] + b);
      assert Items(p, a) == NodeItems(p, a[0]) + Items(p, a[1..]);
      hide Items, NodeItems;
      Assoc(NodeItems(p, a[0]), Items(p, a[1..]), Items(p, b));
    }
  }

  lemma ItemsCons(p: Pass, n: Node, tail: seq<Node>)
    ensures Items(p, [n] + tail) == NodeItems(p, n) + Items(p, tail)
  {
    assert ([n] + tail)[1..] == tail;
  }

  lemma ItemsOne(p: Pass, n: Node)
    ensures Items(p, [n]) == NodeItems(p, n)
  {
    assert [n][1..] == [];
    assert Items(p, [n]) == NodeItems(p, n) + [];
  }

  // A rule and what the loop makes of it: below the head stands the rest.
  lemma BelowItems(p: Pass, s: Sequence, kids: seq<Node>)
    requires SelectorReady(p, s) && Merges(p, s)
    ensures
      var t, rest := TokenOf(p, Head(p, s)), Remainder(p, s);
      Inside([t], Items(p, Below(rest, kids))) ==
        if rest == [] then Inside([t], Items(p, kids)) else RuleItems(Steps(p, s), Items(p, kids))
    ensures Remainder(p, s) == [] ==> Steps(p, s) == [TokenOf(p, Head(p, s))]
  {
    var t, rest := TokenOf(p, Head(p, s)), Remainder(p, s);
    if rest != [] {
      SplitSelector(p, s);
      var items := Items(p, kids);
      ItemsOne(p, Rule([rest], kids));
      InsideAppend([t], [Item(Steps(p, rest), None)], Inside(Steps(p, rest), items));
      InsideTwice([t], Steps(p, rest), items);
      assert Inside([t], [Item(Steps(p, rest), None)]) == [Item([t] + Steps(p, rest), None)];
    }
  }

  // ---- One turn of the loop ----------------------------------------------------------------------

  // The rules of a list that the pass takes apart start with single members, each otherwise
  // than the one before, and the last of them is the current one.
  ghost predicate Settled(p: Pass, ns: seq<Node>) {
    (forall i :: 0 <= i < |ns| && Open(p, ns[i]) ==> |StartOf(p, ns[i])| == 1) &&
    forall i, j :: 0 <= i < j < |ns| && Open(p, ns[i]) && Open(p, ns[j]) && (forall k :: i < k < j ==> !Open(p, ns[k])) ==>
      StartOf(p, ns[i]) != StartOf(p, ns[j])
  }

  ghost predicate LastOpen(p: Pass, st: Scan) {
    (0 <= st.current < |st.out| ==> Open(p, st.out[st.current])) &&
    forall k :: st.current < k < |st.out| && 0 <= k ==> !Open(p, st.out[k])
  }

  lemma {:induction false} ClosedItems(p: Pass, ns: seq<Node>)
    requires forall n :: n in ns ==> !Open(p, n)
    ensures AllHere(Items(p, ns))
  {
    if ns != [] {
      ClosedItems(p, ns[1..]);
    }
  }

  // The current rule takes in another one.
  lemma ReuseAlike(way: Way, p: Pass, st: Scan, s: Sequence, kids: seq<Node>)
    requires st.Valid() && 0 <= st.current && LastOpen(p, st) && SelectorReady(p, s) && Merges(p, s)
    requires Steps(p, st.out[st.current].sels[0]) == [TokenOf(p, Head(p, s))]
    ensures
      var after := Attach(st, true, [Head(p, s)], Below(Remainder(p, s), kids)).out;
      Alike(way, Items(p, st.out) + RuleItems(Steps(p, s), Items(p, kids)), Items(p, after))
  {
    var t := [TokenOf(p, Head(p, s))];
    var x, c, y := st.out[..st.current], st.out[st.current], st.out[st.current + 1..];
    var below := Below(Remainder(p, s), kids);
    var grown := Rule(c.sels, c.children + below);
    assert st.out == x + [c] + y && st.out[st.current := grown] == x + [grown] + y;
    ThreeItems(p, x, c, y);
    ThreeItems(p, x, grown, y);
    ClosedItems(p, y);
    GrownItems(p, c, below);
    BelowItems(p, s, kids);
    var ic, b, iBelow := NodeItems(p, c), RuleItems(Steps(p, s), Items(p, kids)), Inside(t, Items(p, below));
    assert ic == RuleItems(t, Items(p, c.children));
    LastInside(t, ic);
    hide Items, NodeItems, Steps, RuleItems, Inside, AllHere, Alike;
    TakeInBehind(way, Items(p, x), ic, Items(p, y), b, iBelow, t);
  }

  lemma TakeInBehind(way: Way, x: seq<Item>, c: seq<Item>, y: seq<Item>, b: seq<Item>, below: seq<Item>, path: seq<Token>)
    requires AllHere(y) && c != [] && path <= c[|c| - 1].path
    requires b == below || b == [Item(path, None)] + below
    ensures Alike(way, x + c + y + b, x + (c + below) + y)
  {
    hide Alike, AllHere;
    TakeIn(way, c, y, b, below, path);
    AlikeAround(way, x, c + y + b, c + below + y, []);
    assert x + (c + y + b) + [] == x + c + y + b && x + (c + below + y) + [] == x + (c + below) + y;
  }

  lemma GrownItems(p: Pass, c: Node, below: seq<Node>)
    requires Open(p, c)
    ensures NodeItems(p, Rule(c.sels, c.children + below)) == NodeItems(p, c) + Inside(Steps(p, c.sels[0]), Items(p, below))
  {
    var path := Steps(p, c.sels[0]);
    var grown := Rule(c.sels, c.children + below);
    assert NodeItems(p, grown) == RuleItems(path, Items(p, grown.children));
    assert NodeItems(p, c) == RuleItems(path, Items(p, c.children));
    ItemsAppend(p, c.children, below);
    RuleItemsAppend(path, Items(p, c.children), Items(p, below));
  }

  lemma RuleItemsAppend(path: seq<Token>, a: seq<Item>, b: seq<Item>)
    ensures RuleItems(path, a + b) == RuleItems(path, a) + Inside(path, b)
  {
    InsideAppend(path, a, b);
  }

  lemma LastInside(t: seq<Token>, items: seq<Item>)
    requires exists below :: items == RuleItems(t, below)
    ensures items != [] && t <= items[|items| - 1].path
  {
  }

  lemma ThreeItems(p: Pass, x: seq<Node>, n: Node, y: seq<Node>)
    ensures Items(p, x + [n] + y) == Items(p, x) + NodeItems(p, n) + Items(p, y)
  {
    ItemsAppend(p, x + [n], y);
    ItemsAppend(p, x, [n]);
    ItemsOne(p, n);
  }

  // A new rule takes in another one.
  lemma NewAlike(way: Way, p: Pass, st: Scan, s: Sequence, kids: seq<Node>)
    requires st.Valid() && SelectorReady(p, s) && Merges(p, s)
    ensures
      var after := Attach(st, false, [Head(p, s)], Below(Remainder(p, s), kids)).out;
      Alike(way, Items(p, st.out) + RuleItems(Steps(p, s), Items(p, kids)), Items(p, after))
  {
    hide Alike, Items, NodeItems, Steps, RuleItems, Head, Remainder, Below, TokenOf;
    var t := TokenOf(p, Head(p, s));
    var added := Rule([[Head(p, s)]], Below(Remainder(p, s), kids));
    NewItems(p, s, kids);
    ItemsAppend(p, st.out, [added]);
    ItemsOne(p, added);
    var x, b := Items(p, st.out), RuleItems(Steps(p, s), Items(p, kids));
    if NodeItems(p, added) == b {
      AlikeSame(way, x + b);
    } else {
      var z := Item([t], None);
      RuleAlike(way, x, z, b);
      AlikeOther(way, x + [z] + b, x + b);
      assert x + [z] + b == x + ([z] + b);
    }
  }

  lemma NewItems(p: Pass, s: Sequence, kids: seq<Node>)
    requires SelectorReady(p, s) && Merges(p, s)
    ensures
      var t, b := TokenOf(p, Head(p, s)), RuleItems(Steps(p, s), Items(p, kids));
      var items := NodeItems(p, Rule([[Head(p, s)]], Below(Remainder(p, s), kids)));
      (items == b || items == [Item([t], None)] + b) && b != [] && [t] <= b[0].path
  {
    var t := TokenOf(p, Head(p, s));
    SplitSelector(p, s);
    BelowItems(p, s, kids);
    assert Steps(p, [Head(p, s)]) == [t];
  }

  lemma StartsToken(p: Pass, current: Member, head: Member)
    ensures Starts(p, current, head) <==> TokenOf(p, current) == TokenOf(p, head)
  {
  }

  // A rule of one start.
  lemma OneStep(p: Pass, s: Sequence)
    requires SelectorReady(p, s) && Merges(p, s) && |s| == 1 && |Steps(p, s)| == 1
    requires s[0] != NEWLINE
    ensures Steps(p, s) == [TokenOf(p, s[0])]
  {
    var rest := Remainder(p, s);
    if p.ParentRefs? {
      assert s[0].simples[..Firsts(s[0].simples)] == s[0].simples;
    }
  }

  lemma SettledPush(p: Pass, st: Scan, n: Node)
    requires st.Valid() && Settled(p, st.out) && LastOpen(p, st)
    requires Open(p, n) ==> |StartOf(p, n)| == 1
    requires Open(p, n) && 0 <= st.current ==> StartOf(p, st.out[st.current]) != StartOf(p, n)
    ensures Settled(p, st.out + [n])
    ensures LastOpen(p, Scan(st.out + [n], if Open(p, n) then |st.out| else st.current))
  {
    hide Open, StartOf;
    var out := st.out + [n];
    forall i, j | 0 <= i < j < |out| && Open(p, out[i]) && Open(p, out[j]) && (forall k :: i < k < j ==> !Open(p, out[k]))
      ensures StartOf(p, out[i]) != StartOf(p, out[j])
    {
      if j == |st.out| {
        assert Open(p, st.out[i]) && st.current >= i;
        assert Open(p, out[st.current]);
      } else {
        forall k | i < k < j ensures !Open(p, st.out[k]) {
          assert !Open(p, out[k]);
        }
      }
    }
  }

  lemma SettledGrow(p: Pass, st: Scan, kids: seq<Node>)
    requires st.Valid() && 0 <= st.current && Settled(p, st.out) && LastOpen(p, st)
    ensures
      var grown := Rule(st.out[st.current].sels, kids);
      Settled(p, st.out[st.current := grown]) && LastOpen(p, Scan(st.out[st.current := grown], st.current))
  {
    var grown := Rule(st.out[st.current].sels, kids);
    var out := st.out[st.current := grown];
    assert Open(p, grown) && StartOf(p, grown) == StartOf(p, st.out[st.current]);
    SettledSame(p, st.out, out);
  }

  // Only the starts matter.
  lemma SettledSame(p: Pass, a: seq<Node>, b: seq<Node>)
    requires Settled(p, a) && |a| == |b|
    requires forall k :: 0 <= k < |a| ==> Open(p, a[k]) == Open(p, b[k]) && (Open(p, a[k]) ==> StartOf(p, a[k]) == StartOf(p, b[k]))
    ensures Settled(p, b)
  {
    hide Open, StartOf;
    forall i, j | 0 <= i < j < |b| && Open(p, b[i]) && Open(p, b[j]) && (forall k :: i < k < j ==> !Open(p, b[k]))
      ensures StartOf(p, b[i]) != StartOf(p, b[j])
    {
      forall k | i < k < j ensures !Open(p, a[k]) {
        assert !Open(p, b[k]);
      }
    }
  }

  /** Taking one node to what was merged so far brings no two places of a declaration
      together that would not have met, and keeps none apart, by this pass or by both. */
  lemma StepAlike(way: Way, p: Pass, n: Node, st: Scan, under: bool)
    requires ReadyNode(p, n, under) && ScanReady(p, st, under) && Settled(p, st.out) && LastOpen(p, st)
    ensures
      var st' := MergeStep(p, n, st, under);
      Settled(p, st'.out) && LastOpen(p, st') && Alike(way, Items(p, st.out) + NodeItems(p, n), Items(p, st'.out))
  {
    hide Alike;
    match n
    case Leaf(_) => PushAlike(way, p, st, n, n);
    case Directive(h, kids) => PushAlike(way, p, st, n, Directive(h, Merged(p, kids, under)));
    case Rule(sels, kids) =>
      assert n == Rule([sels[0]], kids);
      if Merges(p, sels[0]) {
        RuleStepAlike(way, p, st, sels[0], kids, under);
      } else {
        PushAlike(way, p, st, n, n);
      }
  }

  lemma PushAlike(way: Way, p: Pass, st: Scan, n: Node, m: Node)
    requires st.Valid() && Settled(p, st.out) && LastOpen(p, st)
    requires !Open(p, n) && !Open(p, m) && NodeItems(p, n) == NodeItems(p, m)
    ensures Settled(p, st.out + [m]) && LastOpen(p, Scan(st.out + [m], st.current))
    ensures Alike(way, Items(p, st.out) + NodeItems(p, n), Items(p, st.out + [m]))
  {
    hide Alike;
    SettledPush(p, st, m);
    ItemsAppend(p, st.out, [m]);
    ItemsOne(p, m);
    AlikeSame(way, Items(p, st.out + [m]));
  }

  lemma RuleStepAlike(way: Way, p: Pass, st: Scan, s: Sequence, kids: seq<Node>, under: bool)
    requires ReadyNode(p, Rule([s], kids), under) && Merges(p, s)
    requires ScanReady(p, st, under) && Settled(p, st.out) && LastOpen(p, st)
    ensures
      var st' := MergeRule(p, st, s, kids, under);
      Settled(p, st'.out) && LastOpen(p, st') &&
      Alike(way, Items(p, st.out) + NodeItems(p, Rule([s], kids)), Items(p, st'.out))
  {
    hide Alike;
    var head := Head(p, s);
    SplitSelector(p, s);
    SplitReady(p, s, kids, under);
    if 0 <= st.current {
      var c := st.out[st.current];
      assert c in st.out && ReadyNode(p, c, under);
      assert c.sels[0][0] != NEWLINE by {
        assert c.sels[0][0] in c.sels[0];
      }
      OneStep(p, c.sels[0]);
      StartsToken(p, c.sels[0][0], head);
    }
    if 0 <= st.current && Starts(p, st.out[st.current].sels[0][0], head) {
      ReuseAlike(way, p, st, s, kids);
      SettledGrow(p, st, st.out[st.current].children + Below(Remainder(p, s), kids));
    } else {
      NewAlike(way, p, st, s, kids);
      SettledPush(p, st, Rule([[head]], Below(Remainder(p, s), kids)));
    }
  }

  lemma {:induction false} ScanAlike(way: Way, p: Pass, ns: seq<Node>, st: Scan, under: bool)
    requires Ready(p, ns, under) && ScanReady(p, st, under) && Settled(p, st.out) && LastOpen(p, st)
    ensures
      var out := MergeScan(p, ns, st, under).out;
      Settled(p, out) && Alike(way, Items(p, st.out) + Items(p, ns), Items(p, out))
    decreases |ns|
  {
    hide Alike, MergeStep;
    if ns == [] {
      assert Items(p, st.out) + [] == Items(p, st.out);
      AlikeSame(way, Items(p, st.out));
    } else {
      assert ReadyNode(p, ns[0], under);
      var st' := MergeStep(p, ns[0], st, under);
      hide Items, NodeItems, Settled, LastOpen;
      StepAlike(way, p, ns[0], st, under);
      ScanAlike(way, p, ns[1..], st', under);
      assert ns == [ns[0]] + ns[1..];
      ItemsCons(p, ns[0], ns[1..]);
      AlikeBehind(way, Items(p, st.out), NodeItems(p, ns[0]), Items(p, st'.out), Items(p, ns[1..]));
      AlikeTwice(way, Items(p, st.out) + Items(p, ns), Items(p, st'.out) + Items(p, ns[1..]),
                 Items(p, MergeScan(p, ns, st, under).out));
    }
  }

  // ---- A settled list ------------------------------------------------------------------------------

  lemma {:induction false} UniqSeen(ns: seq<Node>, seen: set<Decl>)
    ensures Uniq(ns, seen) == ns <==> Uniq(ns, {}) == ns && forall d :: d in seen ==> Leaf(d) !in ns
  {
    if ns != [] {
      var n, tail := ns[0], ns[1..];
      assert ns == [n] + tail;
      if n.Leaf? {
        UniqSeen(tail, seen);
        UniqSeen(tail, seen + {n.decl});
        UniqSeen(tail, {n.decl});
        assert {} + {n.decl} == {n.decl};
        UniqTail(n, tail, Uniq(tail, seen + {n.decl}));
        UniqTail(n, tail, Uniq(tail, {n.decl}));
      } else {
        UniqSeen(tail, seen);
        UniqTail(n, tail, Uniq(tail, seen));
        UniqTail(n, tail, Uniq(tail, {}));
      }
    }
  }

  lemma UniqTail(n: Node, tail: seq<Node>, kept: seq<Node>)
    ensures [n] + kept == [n] + tail <==> kept == tail
  {
    assert ([n] + kept)[1..] == kept && ([n] + tail)[1..] == tail;
  }

  lemma UniqCons(n: Node, tail: seq<Node>)
    ensures Uniq([n] + tail, {}) == [n] + tail <==> Uniq(tail, {}) == tail && (n.Leaf? ==> n !in tail)
  {
    var ns := [n] + tail;
    assert ns[1..] == tail;
    if n.Leaf? {
      assert {} + {n.decl} == {n.decl};
      UniqSeen(tail, {n.decl});
      UniqTail(n, tail, Uniq(tail, {n.decl}));
    } else {
      UniqTail(n, tail, Uniq(tail, {}));
    }
  }

  lemma {:induction false} LeafInItems(p: Pass, ns: seq<Node>, d: Decl)
    ensures Item([], Some(d)) in Items(p, ns) <==> Leaf(d) in ns
  {
    if ns != [] {
      LeafInItems(p, ns[1..], d);
      assert ns == [ns[0]] + ns[1..];
      if Open(p, ns[0]) {
        RuleItemsInside(Steps(p, ns[0].sels[0]), Items(p, ns[0].children));
      }
    }
  }

  lemma RuleItemsInside(path: seq<Token>, items: seq<Item>)
    requires path != []
    ensures forall i :: i in RuleItems(path, items) ==> i.path != [] && i.path[0] == path[0]
    ensures AllStart(RuleItems(path, items), path[0])
  {
  }

  ghost predicate FirstOther(p: Pass, ns: seq<Node>, t: Token) {
    forall j :: 0 <= j < |ns| && Open(p, ns[j]) && (forall k :: 0 <= k < j ==> !Open(p, ns[k])) ==> StartOf(p, ns[j])[0] != t
  }

  lemma {:induction false} OtherFirstItems(p: Pass, ns: seq<Node>, t: Token)
    requires FirstOther(p, ns, t)
    ensures OtherFirst(Items(p, ns), t)
  {
    if ns == [] {
      assert OtherAt([], t, 0);
    } else if Open(p, ns[0]) {
      assert StartOf(p, ns[0])[0] != t;
      assert OtherAt(Items(p, ns), t, 0);
    } else {
      forall j | 0 <= j < |ns[1..]| && Open(p, ns[1..][j]) && (forall k :: 0 <= k < j ==> !Open(p, ns[1..][k]))
        ensures StartOf(p, ns[1..][j])[0] != t
      {
        assert ns[1..][j] == ns[j + 1];
        assert forall k :: 0 <= k < j + 1 ==> !Open(p, ns[k]) by {
          forall k | 0 <= k < j + 1 ensures !Open(p, ns[k]) {
            if k > 0 {
              assert !Open(p, ns[1..][k - 1]);
            }
          }
        }
      }
      OtherFirstItems(p, ns[1..], t);
      var n: nat :| OtherAt(Items(p, ns[1..]), t, n);
      assert OtherAt(Items(p, ns), t, n + |NodeItems(p, ns[0])|);
    }
  }

  lemma SettledTail(p: Pass, ns: seq<Node>)
    requires ns != [] && Settled(p, ns)
    ensures Settled(p, ns[1..])
    ensures Open(p, ns[0]) ==> FirstOther(p, ns[1..], StartOf(p, ns[0])[0])
  {
    hide Open;
    var tail := ns[1..];
    forall i, j | 0 <= i < j < |tail| && Open(p, tail[i]) && Open(p, tail[j]) && (forall k :: i < k < j ==> !Open(p, tail[k]))
      ensures StartOf(p, tail[i]) != StartOf(p, tail[j])
    {
      forall k | i + 1 < k < j + 1 ensures !Open(p, ns[k]) {
        assert !Open(p, tail[k - 1]);
      }
      assert StartOf(p, ns[i + 1]) != StartOf(p, ns[j + 1]);
    }
    if Open(p, ns[0]) {
      forall j | 0 <= j < |tail| && Open(p, tail[j]) && (forall k :: 0 <= k < j ==> !Open(p, tail[k]))
        ensures StartOf(p, tail[j])[0] != StartOf(p, ns[0])[0]
      {
        forall k | 0 < k < j + 1 ensures !Open(p, ns[k]) {
          assert !Open(p, tail[k - 1]);
        }
        var a, b := StartOf(p, ns[0]), StartOf(p, ns[j + 1]);
        assert a != b && |a| == |b| == 1;
        assert a == [a[0]] && b == [b[0]];
      }
    }
  }

  // Some rule of the list has a clash inside.
  ghost predicate ClashInside(p: Pass, ns: seq<Node>) {
    exists n :: n in ns && Open(p, n) && Clash(OnePass, Items(p, n.children))
  }

  /** In a settled list a declaration comes together with itself only where it stands, or inside
      one rule. */
  lemma {:induction false} LevelClash(p: Pass, ns: seq<Node>)
    requires Settled(p, ns)
    ensures Clash(OnePass, Items(p, ns)) <==> Uniq(ns, {}) != ns || ClashInside(p, ns)
  {
    if ns != [] {
      var n, tail := ns[0], ns[1..];
      assert ns == [n] + tail;
      SettledTail(p, ns);
      LevelClash(p, tail);
      UniqCons(n, tail);
      hide Settled, Uniq, Items;
      assert ClashInside(p, ns) <==> (Open(p, n) && Clash(OnePass, Items(p, n.children))) || ClashInside(p, tail);
      if Open(p, n) {
        OpenFirst(p, n, tail);
      } else {
        ClosedFirst(p, n, tail);
      }
    }
  }

  lemma OpenFirst(p: Pass, n: Node, tail: seq<Node>)
    requires Open(p, n) && FirstOther(p, tail, StartOf(p, n)[0])
    ensures Clash(OnePass, Items(p, [n] + tail)) <==> Clash(OnePass, Items(p, n.children)) || Clash(OnePass, Items(p, tail))
  {
    var path := StartOf(p, n);
    assert Items(p, [n] + tail) == NodeItems(p, n) + Items(p, tail);
    RuleItemsInside(path, Items(p, n.children));
    OtherFirstItems(p, tail, path[0]);
    BlockSplit(NodeItems(p, n), Items(p, tail), path[0]);
    HeadedClash(OnePass, path, Items(p, n.children));
  }

  lemma ClosedFirst(p: Pass, n: Node, tail: seq<Node>)
    requires !Open(p, n)
    ensures Clash(OnePass, Items(p, [n] + tail)) <==> Clash(OnePass, Items(p, tail)) || (n.Leaf? && n in tail)
  {
    ItemsAppend(p, [n], tail);
    ItemsOne(p, n);
    if n.Leaf? {
      LeafFirst(Item([], Some(n.decl)), Items(p, tail));
      LeafInItems(p, tail, n.decl);
      assert n == Leaf(n.decl);
    } else {
      assert [] + Items(p, tail) == Items(p, tail);
    }
  }

  lemma LeafFirst(z: Item, rest: seq<Item>)
    requires z.path == [] && z.decl.Some?
    ensures Clash(OnePass, [z] + rest) <==> Clash(OnePass, rest) || z in rest
  {
    LeafInsert(OnePass, [], z, rest);
    assert [] + [z] + rest == [z] + rest && [] + rest == rest;
  }

  // ---- The whole pass ------------------------------------------------------------------------------

  lemma {:induction false} WeightIn(p: Pass, ns: seq<Node>, n: Node)
    requires n in ns
    ensures NodeWeight(p, n) <= Weight(p, ns)
  {
    if n != ns[0] {
      WeightIn(p, ns[1..], n);
    }
  }

  ghost predicate DirectivesSafe(p: Pass, ns: seq<Node>, under: bool)
    requires Ready(p, ns, under)
  {
    forall n :: n in ns && n.Directive? ==>
      assert ReadyNode(p, n, under); Safe(p, n.children) && Safe(p, Merged(p, n.children, under))
  }

  lemma SealedSplit(p: Pass, a: seq<Node>, b: seq<Node>)
    ensures Sealed(p, a + b) <==> Sealed(p, a) && Sealed(p, b)
  {
    forall n | n in a ensures n in a + b {
    }
    forall n | n in b ensures n in a + b {
    }
  }

  lemma SealedOne(p: Pass, n: Node)
    ensures Sealed(p, [n]) <==> NodeSealed(p, n)
  {
    assert n in [n];
  }

  lemma SealedUpdate(p: Pass, ns: seq<Node>, i: nat, n: Node)
    requires i < |ns|
    ensures Sealed(p, ns) <==> Sealed(p, ns[..i]) && NodeSealed(p, ns[i]) && Sealed(p, ns[i + 1..])
    ensures Sealed(p, ns[i := n]) <==> Sealed(p, ns[..i]) && NodeSealed(p, n) && Sealed(p, ns[i + 1..])
  {
    assert ns == ns[..i] + ([ns[i]] + ns[i + 1..]) && ns[i := n] == ns[..i] + ([n] + ns[i + 1..]);
    SealedSplit(p, ns[..i], [ns[i]] + ns[i + 1..]);
    SealedSplit(p, [ns[i]], ns[i + 1..]);
    SealedSplit(p, ns[..i], [n] + ns[i + 1..]);
    SealedSplit(p, [n], ns[i + 1..]);
    SealedOne(p, ns[i]);
    SealedOne(p, n);
  }

  lemma SealedBelow(p: Pass, s: Sequence, kids: seq<Node>)
    requires SelectorReady(p, s) && Merges(p, s)
    ensures Sealed(p, Below(Remainder(p, s), kids)) <==> Sealed(p, kids)
  {
    SplitSelector(p, s);
    if Remainder(p, s) != [] {
      SealedOne(p, Rule([Remainder(p, s)], kids));
    }
  }

  lemma SealedAttach(p: Pass, st: Scan, reuse: bool, s: Sequence, kids: seq<Node>)
    requires st.Valid() && LastOpen(p, st) && (reuse ==> 0 <= st.current) && SelectorReady(p, s) && Merges(p, s)
    ensures
      Sealed(p, Attach(st, reuse, [Head(p, s)], Below(Remainder(p, s), kids)).out) <==> Sealed(p, st.out) && Sealed(p, kids)
  {
    var below := Below(Remainder(p, s), kids);
    SealedBelow(p, s, kids);
    if reuse {
      var c := st.out[st.current];
      SealedUpdate(p, st.out, st.current, Rule(c.sels, c.children + below));
      SealedSplit(p, c.children, below);
    } else {
      SplitSelector(p, s);
      SealedSplit(p, st.out, [Rule([[Head(p, s)]], below)]);
      SealedOne(p, Rule([[Head(p, s)]], below));
    }
  }

  lemma {:induction false} ScanSealed(p: Pass, ns: seq<Node>, st: Scan, under: bool)
    requires Ready(p, ns, under) && ScanReady(p, st, under) && DirectivesSafe(p, ns, under)
    requires Settled(p, st.out) && LastOpen(p, st)
    ensures Sealed(p, MergeScan(p, ns, st, under).out) <==> Sealed(p, st.out) && Sealed(p, ns)
    decreases |ns|
  {
    if ns != [] {
      var n, tail := ns[0], ns[1..];
      assert ReadyNode(p, n, under);
      assert ns == [n] + tail;
      SealedSplit(p, [n], tail);
      SealedOne(p, n);
      StepAlike(OnePass, p, n, st, under);
      StepSealed(p, n, st, under);
      ScanSealed(p, tail, MergeStep(p, n, st, under), under);
    }
  }

  lemma StepSealed(p: Pass, n: Node, st: Scan, under: bool)
    requires ReadyNode(p, n, under) && ScanReady(p, st, under) && LastOpen(p, st)
    requires n.Directive? ==> Safe(p, n.children) && Safe(p, Merged(p, n.children, under))
    ensures Sealed(p, MergeStep(p, n, st, under).out) <==> Sealed(p, st.out) && NodeSealed(p, n)
  {
    match n
    case Leaf(_) =>
      SealedSplit(p, st.out, [n]);
      SealedOne(p, n);
    case Directive(h, kids) =>
      var d := Directive(h, Merged(p, kids, under));
      SealedSplit(p, st.out, [d]);
      SealedOne(p, d);
    case Rule(sels, kids) =>
      assert n == Rule([sels[0]], kids);
      if Merges(p, sels[0]) {
        var reuse := 0 <= st.current && Starts(p, st.out[st.current].sels[0][0], Head(p, sels[0]));
        SealedAttach(p, st, reuse, sels[0], kids);
      } else {
        SealedSplit(p, st.out, [n]);
        SealedOne(p, n);
      }
  }

  // What the loop leaves is safe when the list was, and uniq! finds nothing in it.
  lemma ScanSafe(p: Pass, ns: seq<Node>, under: bool)
    requires Ready(p, ns, under) && DirectivesSafe(p, ns, under)
    ensures
      var out := MergeScan(p, ns, Scan([], -1), under).out;
      Settled(p, out) && (Safe(p, ns) <==> Uniq(out, {}) == out && !ClashInside(p, out) && Sealed(p, out))
  {
    var st := Scan([], -1);
    ScanAlike(OnePass, p, ns, st, under);
    AlikeClash(OnePass, Items(p, st.out) + Items(p, ns), Items(p, MergeScan(p, ns, st, under).out));
    ScanSealed(p, ns, st, under);
    LevelClash(p, MergeScan(p, ns, st, under).out);
    assert Items(p, []) + Items(p, ns) == Items(p, ns);
  }

  // Directives are passed over twice: by the loop, and with everything that it leaves.
  lemma {:induction false} MergedSafe(p: Pass, ns: seq<Node>, under: bool)
    requires Ready(p, ns, under) && Safe(p, ns)
    ensures Safe(p, Merged(p, ns, under))
    decreases Weight(p, ns), 3
  {
    DirectivesMergedSafe(p, ns, under);
    ScanSafe(p, ns, under);
    var out := MergeScan(p, ns, Scan([], -1), under).out;
    WeightUniq(p, out, {});
    EachSafe(p, out, under);
  }

  lemma {:induction false} DirectivesMergedSafe(p: Pass, ns: seq<Node>, under: bool)
    requires Ready(p, ns, under) && Sealed(p, ns)
    ensures DirectivesSafe(p, ns, under)
    decreases Weight(p, ns), 1
  {
    forall n | n in ns && n.Directive? ensures Safe(p, n.children) && (assert ReadyNode(p, n, under); Safe(p, Merged(p, n.children, under))) {
      assert ReadyNode(p, n, under) && NodeSealed(p, n);
      WeightIn(p, ns, n);
      MergedSafe(p, n.children, under);
    }
  }

  // A rule keeps its start, and a list its places, when the pass goes on below.
  lemma {:induction false} EachSafe(p: Pass, out: seq<Node>, under: bool)
    requires Ready(p, out, under) && Settled(p, out)
    requires Uniq(out, {}) == out && !ClashInside(p, out) && Sealed(p, out)
    ensures Safe(p, MergedEach(p, out, under))
    decreases Weight(p, out), 2
  {
    var each := MergedEach(p, out, under);
    EachNode(p, out, under);
    forall k | 0 <= k < |out| ensures NodeSealed(p, each[k]) && (Open(p, each[k]) ==> !Clash(OnePass, Items(p, each[k].children))) {
      var n := out[k];
      assert n in out && ReadyNode(p, n, under) && NodeSealed(p, n);
      WeightIn(p, out, n);
      match n {
        case Leaf(_) =>
        case Directive(_, kids) => MergedSafe(p, kids, under);
        case Rule(sels, kids) => MergedSafe(p, kids, EndsInCompound(Clean(sels[0])));
      }
    }
    SettledSame(p, out, each);
    UniqEach(p, out, under);
    LevelClash(p, each);
  }

  lemma {:induction false} EachNode(p: Pass, out: seq<Node>, under: bool)
    requires Ready(p, out, under)
    ensures
      var each := MergedEach(p, out, under);
      |each| == |out| &&
      forall k :: 0 <= k < |out| ==>
        (assert out[k] in out; ReadyNode(p, out[k], under)) && each[k] == MergedNode(p, out[k], under) &&
        Open(p, each[k]) == Open(p, out[k]) && (Open(p, out[k]) ==> StartOf(p, each[k]) == StartOf(p, out[k]))
    decreases |out|
  {
    if out != [] {
      EachNode(p, out[1..], under);
      var m, rest := MergedNode(p, out[0], under), MergedEach(p, out[1..], under);
      assert MergedEach(p, out, under) == [m] + rest;
      forall k | 0 < k < |out| ensures out[k] == out[1..][k - 1] && ([m] + rest)[k] == rest[k - 1] {
      }
    }
  }

  lemma {:induction false} UniqEach(p: Pass, out: seq<Node>, under: bool)
    requires Ready(p, out, under) && Uniq(out, {}) == out
    ensures Uniq(MergedEach(p, out, under), {}) == MergedEach(p, out, under)
    decreases |out|
  {
    if out != [] {
      var n, tail := out[0], out[1..];
      assert out == [n] + tail;
      UniqCons(n, tail);
      EachCons(p, out, under);
      UniqEach(p, tail, under);
      LeafInEach(p, n, tail, under);
      hide Uniq, MergedEach, Ready;
      UniqCons(MergedNode(p, n, under), MergedEach(p, tail, under));
    }
  }

  lemma EachCons(p: Pass, out: seq<Node>, under: bool)
    requires Ready(p, out, under) && out != []
    ensures ReadyNode(p, out[0], under) && Ready(p, out[1..], under)
    ensures MergedEach(p, out, under) == [MergedNode(p, out[0], under)] + MergedEach(p, out[1..], under)
    ensures out[0].Leaf? <==> MergedNode(p, out[0], under).Leaf?
    ensures out[0].Leaf? ==> MergedNode(p, out[0], under) == out[0]
  {
    assert out[0] in out;
  }

  lemma LeafInEach(p: Pass, n: Node, tail: seq<Node>, under: bool)
    requires Ready(p, tail, under)
    ensures n.Leaf? && n in MergedEach(p, tail, under) ==> n in tail
  {
    EachNode(p, tail, under);
    if n.Leaf? && n in MergedEach(p, tail, under) {
      var k :| 0 <= k < |tail| && MergedEach(p, tail, under)[k] == n;
      assert tail[k] in tail && ReadyNode(p, tail[k], under);
      assert tail[k] == n;
    }
  }

  lemma {:induction false} DroppedNone(p: Pass, ns: seq<Node>, under: bool)
    requires Ready(p, ns, under)
    ensures DroppedBelow(p, ns, under) == 0 <==>
      forall n :: n in ns ==> (assert ReadyNode(p, n, under); DroppedIn(p, n, under) == 0)
    ensures DroppedInLoop(p, ns, under) == 0 <==>
      forall n :: n in ns && n.Directive? ==> (assert ReadyNode(p, n, under); DroppedIn(p, n, under) == 0)
    decreases |ns|
  {
    if ns != [] {
      assert ns == [ns[0]] + ns[1..] && ns[0] in ns;
      assert ReadyNode(p, ns[0], under) && Ready(p, ns[1..], under);
      DroppedNone(p, ns[1..], under);
      assert DroppedBelow(p, ns, under) == DroppedIn(p, ns[0], under) + DroppedBelow(p, ns[1..], under);
      hide DroppedIn, Ready, ReadyNode;
      assert forall n :: n in ns <==> n == ns[0] || n in ns[1..];
    }
  }

  /** A pass loses nothing exactly when no two places of one declaration come together in the
      list that it is given. */
  lemma {:induction false} DroppedNoneIff(p: Pass, ns: seq<Node>, under: bool)
    requires Ready(p, ns, under)
    ensures Dropped(p, ns, under) == 0 <==> Safe(p, ns)
    decreases Weight(p, ns), 3
  {
    var out := MergeScan(p, ns, Scan([], -1), under).out;
    WeightUniq(p, out, {});
    DroppedNone(p, ns, under);
    DroppedNone(p, Uniq(out, {}), under);
    forall n | n in ns && n.Directive? ensures (assert ReadyNode(p, n, under); DroppedIn(p, n, under) == 0) <==> Safe(p, n.children) {
      assert ReadyNode(p, n, under);
      WeightIn(p, ns, n);
      DroppedNoneIff(p, n.children, under);
    }
    if DroppedInLoop(p, ns, under) == 0 {
      forall n | n in ns && n.Directive? ensures Safe(p, n.children) && (assert ReadyNode(p, n, under); Safe(p, Merged(p, n.children, under))) {
        assert ReadyNode(p, n, under);
        MergedSafe(p, n.children, under);
      }
      ScanSafe(p, ns, under);
      BelowIff(p, out, under);
      UniqSame(out);
    } else {
      var n :| n in ns && n.Directive? && (assert ReadyNode(p, n, under); DroppedIn(p, n, under) != 0);
      assert !NodeSealed(p, n);
    }
  }

  lemma {:induction false} UniqSame(ns: seq<Node>)
    ensures |Uniq(ns, {})| == |ns| <==> Uniq(ns, {}) == ns
  {
    UniqShorter(ns, {});
  }

  lemma {:induction false} UniqShorter(ns: seq<Node>, seen: set<Decl>)
    ensures |Uniq(ns, seen)| == |ns| ==> Uniq(ns, seen) == ns
  {
    if ns != [] {
      UniqShorter(ns[1..], seen);
      UniqShorter(ns[1..], if ns[0].Leaf? then seen + {ns[0].decl} else seen);
    }
  }

  // What stands below a list.
  lemma {:induction false} BelowIff(p: Pass, out: seq<Node>, under: bool)
    requires Ready(p, out, under)
    ensures DroppedBelow(p, out, under) == 0 <==> !ClashInside(p, out) && Sealed(p, out)
    decreases Weight(p, out), 2
  {
    DroppedNone(p, out, under);
    forall n | n in out
      ensures (assert ReadyNode(p, n, under); DroppedIn(p, n, under) == 0) <==>
        NodeSealed(p, n) && (Open(p, n) ==> !Clash(OnePass, Items(p, n.children)))
    {
      assert ReadyNode(p, n, under);
      WeightIn(p, out, n);
      match n {
        case Leaf(_) =>
        case Directive(_, kids) => DroppedNoneIff(p, kids, under);
        case Rule(sels, kids) => DroppedNoneIff(p, kids, EndsInCompound(Clean(sels[0])));
      }
    }
  }
}
