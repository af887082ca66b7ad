// Stylesheets in which nest_seqs keeps every fact and parent_ref_rules may not.
module DottedExample {
  import opened Selectors
  import opened StyleTree
  import opened MergePass
  import opened OtherPasses
  import opened CssToSass
  import opened OutOfWay
  import opened ListedTwice
  import opened BothPasses
  import opened BagKept

  const A: Member := Compound([Other(".a")])
  const AB: Member := Compound([Other(".a"), Other(".b")])
  const C: Member := Compound([Other(".c")])
  const CHILD: Member := Op(">")
  const DECL: Node := Leaf(Decl(1, "p"))

  // `.a, .a.b, .a {p}`
  const DOTTED: seq<Node> := [Rule([[A], [AB], [A]], [DECL])]

  lemma OneRule(sels: seq<Sequence>)
    requires sels != [] && forall s :: s in sels ==> SelectorReady(NestSeqs, s)
    ensures PlainCss([Rule(sels, [DECL])]) && Distinct([Rule(sels, [DECL])])
    ensures forall m :: m in Members([Rule(sels, [DECL])]) ==> exists s :: s in sels && m in Clean(s)
    ensures NoneMeetAgain([Rule(sels, [DECL])]) <==> forall i: nat, j: nat :: !MeetAgain(sels, i, j)
    ensures NoneMeetInAll([Rule(sels, [DECL])]) <==> forall i: nat, j: nat :: !MeetInAll(sels, i, j)
  {
    var ns := [Rule(sels, [DECL])];
    assert ns[1..] == [] && [DECL][1..] == [] && ns[0] in ns;
    assert Decls([DECL]) == multiset{Decl(1, "p")} + Decls([DECL][1..]);
    assert Decls(ns) == Decls([DECL]) + Decls(ns[1..]);
    assert Members([DECL]) == NodeMembers(DECL) + Members([DECL][1..]) == {} + Members([]);
    assert Members(ns) == NodeMembers(ns[0]) + Members([]);
    forall m | m in NodeMembers(ns[0]) ensures exists s :: s in sels && m in Clean(s) {
      assert m !in Members([DECL]);
    }
  }

  lemma KeysDiffer()
    ensures KeyOf(A) != KeyOf(AB) && KeyOf(A) != KeyOf(CHILD) && KeyOf(AB) != KeyOf(CHILD)
    ensures KeyOf(C) != KeyOf(A) && KeyOf(C) != KeyOf(AB) && KeyOf(C) != KeyOf(CHILD)
  {
    assert Other(".b") in Rest(Base(AB.simples), AB.simples);
    assert Other(".b") !in Rest(Base(A.simples), A.simples) && Other(".b") !in Rest(Base(C.simples), C.simples);
    assert Other(".c") in Rest(Base(C.simples), C.simples) && Other(".c") !in Rest(Base(A.simples), A.simples);
  }

  lemma DottedSpelled(sels: seq<Sequence>)
    requires sels == [[A], [AB], [A]]
    ensures (forall s :: s in sels ==> SelectorReady(NestSeqs, s)) && Clean([A]) == [A] && Clean([AB]) == [AB]
    ensures forall s, m :: s in sels && m in Clean(s) ==> m == A || m == AB
  {
  }

  lemma DottedApart(sels: seq<Sequence>)
    requires sels == [[A], [AB], [A]]
    ensures forall i: nat, j: nat :: !MeetAgain(sels, i, j)
  {
    KeysDiffer();
    DottedSpelled(sels);
    assert Keys([A]) == [KeyOf(A)] && Keys([AB]) == [KeyOf(AB)];
    assert Keys([A])[0] != Keys([AB])[0];
    forall i: nat, j: nat ensures !MeetAgain(sels, i, j) {
      assert i == 0 && j == 2 ==> i < 1 < j && sels[1] == [AB];
      assert i < j < 3 ==> (i == 0 && j == 2) || Keys(Clean(sels[i])) != Keys(Clean(sels[j]));
    }
  }

  // `.a.b` goes on where `.a` ends.
  lemma DottedGoesOn()
    ensures OutOfTheWay([A], [AB])
  {
    assert [A][1..] == [] && [AB][1..] == [];
    assert Simples([A]) == [ByMember(A)] + [] && Simples([AB]) == [ByMember(A), ByMember(Compound([Parent, Other(".b")]))] + [];
    assert Beside(Simples([A])[1..], Simples([AB])[1..]);
  }

  /** No selector meets itself again for nest_seqs, and still a fact is lost: below `.a` the
      two stand around `&.b`. */
  lemma DottedLosesFact()
    ensures PlainCss(DOTTED) && Distinct(DOTTED) && NoneMeetAgain(DOTTED)
    ensures Facts(Built(DOTTED), TOP) != Facts(DOTTED, TOP)
  {
    var sels := [[A], [AB], [A]];
    DottedSpelled(sels);
    DottedApart(sels);
    OneRule(sels);
    KeysDiffer();
    DottedGoesOn();
    assert MeetInAll(sels, 0, 2);
    BagKeptOnCss(DOTTED);
  }

  /** A selector that turns off with a combinator is not in the way of one that has none, as in
      `.a .c, .a > .c, .a .c`; but one that differs in front of its last combinator is, as in
      `.a > .c, .a.b, .a > .c`. */
  lemma Combinators()
    ensures OutOfTheWay([A, C], [A, CHILD, C]) && !OutOfTheWay([A, CHILD, C], [AB])
  {
    var v, w := [A, C], [A, CHILD, C];
    assert v[1..] == [C] && [C][1..] == [] && w[1..] == [CHILD, C] && [CHILD, C][1..] == [C];
    var a, b := Simples(v), Simples(w);
    assert SimplesOf(A) == [ByMember(A)] && SimplesOf(C) == [ByMember(C)];
    assert Simples([C]) == SimplesOf(C) + [] && Simples([CHILD, C]) == SimplesOf(CHILD) + Simples([C]);
    assert a == [ByMember(A)] + ([ByMember(C)] + []) && b == [ByMember(A)] + ([ByMember(CHILD)] + ([ByMember(C)] + []));
    assert a[1..] == [ByMember(C)] && b[1..] == [ByMember(CHILD), ByMember(C)];
    assert CHILD in w && w[0] != AB;
  }
}
