// Where the places of a declaration come together, by nest_seqs or by both passes, told from
// the lists of selectors of a stylesheet.
module ListedTwice {
  import opened Selectors
  import opened StyleTree
  import opened MergePass
  import opened OtherPasses
  import opened CssToSass
  import opened OutOfWay
  import opened Clashes
  import opened DropCondition

  /** The same selector is listed twice, and each one between begins with it or is a beginning
      of it: `.a, .a .b, .a`, but not `.a, .c, .a`. */
  ghost predicate MeetAgain(sels: seq<Sequence>, i: nat, j: nat) {
    i < j < |sels| && Keys(Clean(sels[i])) == Keys(Clean(sels[j])) &&
    forall k :: i < k < j ==>
      Keys(Clean(sels[k])) <= Keys(Clean(sels[i])) || Keys(Clean(sels[i])) <= Keys(Clean(sels[k]))
  }

  /** The same selector is listed twice, and none between is in its way: also `.a, .a.b, .a` and
      `.a .c, .a > .d, .a .c`, but not `.a > .b, .a.c, .a > .b`. */
  ghost predicate MeetInAll(sels: seq<Sequence>, i: nat, j: nat) {
    i < j < |sels| && Clean(sels[i]) == Clean(sels[j]) &&
    forall k :: i < k < j ==> OutOfTheWay(Clean(sels[i]), Clean(sels[k]))
  }

  // No rule that says something lists a selector like that.
  ghost predicate NoneMeetInAll(ns: seq<Node>) {
    forall n :: n in ns ==> NodeNoneMeetInAll(n)
  }

  ghost predicate NodeNoneMeetInAll(n: Node) {
    match n
    case Leaf(_) => true
    case Directive(_, kids) => NoneMeetInAll(kids)
    case Rule(sels, kids) => kids == [] || forall i: nat, j: nat :: !MeetInAll(sels, i, j)
  }

  // No rule that says something lists a selector like that for nest_seqs alone.
  ghost predicate NoneMeetAgain(ns: seq<Node>) {
    forall n :: n in ns ==> NodeNoneMeetAgain(n)
  }

  ghost predicate NodeNoneMeetAgain(n: Node) {
    match n
    case Leaf(_) => true
    case Directive(_, kids) => NoneMeetAgain(kids)
    case Rule(sels, kids) => kids == [] || forall i: nat, j: nat :: !MeetAgain(sels, i, j)
  }

  // Both, in terms of places.
  ghost predicate MeetBy(way: Way, sels: seq<Sequence>, i: nat, j: nat) {
    i < j < |sels| && PathOf(sels[i]) == PathOf(sels[j]) &&
    forall k :: i < k < j ==> Passes(way, PathOf(sels[k]), PathOf(sels[i]))
  }

  ghost predicate NoneMeetBy(way: Way, ns: seq<Node>) {
    forall n :: n in ns ==> NodeNoneMeetBy(way, n)
  }

  ghost predicate NodeNoneMeetBy(way: Way, n: Node) {
    match n
    case Leaf(_) => true
    case Directive(_, kids) => NoneMeetBy(way, kids)
    case Rule(sels, kids) => kids == [] || forall i: nat, j: nat :: !MeetBy(way, sels, i, j)
  }

  // ---- The items of a rule's list -----------------------------------------------------------------

  function Tokens(keys: seq<Key>): (r: seq<Token>)
    ensures |r| == |keys|
    ensures forall k :: 0 <= k < |r| ==> r[k] == ByKey(keys[k])
  {
    seq(|keys|, k requires 0 <= k < |keys| => ByKey(keys[k]))
  }

  lemma {:induction false} StepsAreKeys(s: Sequence)
    requires SelectorReady(NestSeqs, s)
    ensures Steps(NestSeqs, s) == Tokens(Keys(Clean(s)))
    decreases |Clean(s)|
  {
    var head, rest := Head(NestSeqs, s), Remainder(NestSeqs, s);
    NestSplit(s);
    assert Steps(NestSeqs, s) == [ByKey(KeyOf(head))] + if rest == [] then [] else Steps(NestSeqs, rest);
    hide Steps, Keys, KeyOf, Clean, Tokens, Head, Remainder, SelectorReady;
    if rest != [] {
      StepsAreKeys(rest);
    }
    TokensCons(head, rest);
  }

  lemma NestSplit(s: Sequence)
    requires SelectorReady(NestSeqs, s)
    ensures
      var head, rest := Head(NestSeqs, s), Remainder(NestSeqs, s);
      Clean(s) == [head] + rest && Clean(rest) == rest && (rest != [] ==> SelectorReady(NestSeqs, rest))
  {
    SplitSelector(NestSeqs, s);
  }

  lemma TokensCons(m: Member, rest: Sequence)
    ensures Tokens(Keys([m] + rest)) == [ByKey(KeyOf(m))] + Tokens(Keys(rest))
    ensures Tokens(Keys([])) == []
  {
  }

  lemma TokensComparable(a: seq<Key>, b: seq<Key>)
    ensures Comparable(Tokens(a), Tokens(b)) <==> a <= b || b <= a
    ensures Tokens(a) == Tokens(b) <==> a == b
  {
    TokensPrefix(a, b);
    TokensPrefix(b, a);
  }

  lemma TokensPrefix(a: seq<Key>, b: seq<Key>)
    ensures Tokens(a) <= Tokens(b) <==> a <= b
  {
    if Tokens(a) <= Tokens(b) {
      forall k | 0 <= k < |a| ensures a[k] == b[k] {
        assert Tokens(a)[k] == Tokens(b)[k];
      }
    }
  }

  function PathOf(s: Sequence): seq<Token> {
    Tokens(Keys(Clean(s)))
  }

  // The n-th item of the list: the rule of one selector after the other, each with all the
  // declarations.
  function ListItem(sels: seq<Sequence>, kids: seq<Node>, n: nat): Item
    requires n < |sels| * (1 + |kids|) && forall k :: k in kids ==> k.Leaf?
  {
    var m := 1 + |kids|;
    Quotient(n, m, |sels|);
    Item(PathOf(sels[n / m]), if n % m == 0 then None else Some(kids[n % m - 1].decl))
  }

  lemma Times(m: nat, a: int, b: int)
    requires a <= b
    ensures m * a <= m * b
  {
    assert m * (b - a) >= 0;
  }

  lemma Quotient(n: nat, m: nat, q: nat)
    requires m > 0 && n < q * m
    ensures n / m < q && n == m * (n / m) + n % m
  {
    if n / m >= q {
      Times(m, q, n / m);
    }
  }

  // Quotient and remainder of what is put together from them.
  lemma PutTogether(a: nat, b: nat, m: nat)
    requires b < m
    ensures (a * m + b) / m == a && (a * m + b) % m == b
  {
    var n := a * m + b;
    var q, r := n / m, n % m;
    assert n == m * q + r;
    if q > a {
      Times(m, a + 1, q);
    } else if q < a {
      Times(m, q + 1, a);
    }
  }

  function ListItems(sels: seq<Sequence>, kids: seq<Node>): (r: seq<Item>)
    requires forall k :: k in kids ==> k.Leaf?
    ensures |r| == |sels| * (1 + |kids|)
    ensures forall n :: 0 <= n < |r| ==> r[n] == ListItem(sels, kids, n)
  {
    seq(|sels| * (1 + |kids|), n requires 0 <= n < |sels| * (1 + |kids|) => ListItem(sels, kids, n))
  }

  lemma {:induction false} KidsItems(p: Pass, kids: seq<Node>)
    requires forall k :: k in kids ==> k.Leaf?
    ensures |Items(p, kids)| == |kids|
    ensures forall k :: 0 <= k < |kids| ==> Items(p, kids)[k] == Item([], Some(kids[k].decl))
  {
    if kids != [] {
      assert kids == [kids[0]] + kids[1..];
      KidsItems(p, kids[1..]);
    }
  }

  lemma {:induction false} ExpandedItems(sels: seq<Sequence>, kids: seq<Node>)
    requires (forall s :: s in sels ==> SelectorReady(NestSeqs, s)) && forall k :: k in kids ==> k.Leaf?
    ensures Items(NestSeqs, ExpandRule(sels, kids)) == ListItems(sels, kids)
  {
    if sels != [] {
      var rest := sels[1..];
      ExpandedItems(rest, kids);
      var first := RuleItems(PathOf(sels[0]), Items(NestSeqs, kids));
      StepsAreKeys(sels[0]);
      KidsItems(NestSeqs, kids);
      assert Items(NestSeqs, ExpandRule(sels, kids)) == first + ListItems(rest, kids);
      FirstItems(sels, kids, first);
    }
  }

  lemma FirstItems(sels: seq<Sequence>, kids: seq<Node>, first: seq<Item>)
    requires sels != [] && forall k :: k in kids ==> k.Leaf?
    requires |first| == 1 + |kids| && first[0] == Item(PathOf(sels[0]), None)
    requires forall k :: 0 <= k < |kids| ==> first[k + 1] == Item(PathOf(sels[0]), Some(kids[k].decl))
    ensures first + ListItems(sels[1..], kids) == ListItems(sels, kids)
  {
    var m, rest := 1 + |kids|, sels[1..];
    var all := first + ListItems(rest, kids);
    OneLess(|sels|, m);
    hide PathOf;
    forall n | 0 <= n < |all| ensures all[n] == ListItem(sels, kids, n) {
      if n < m {
        PutTogether(0, n, m);
      } else {
        LaterItem(sels, kids, n);
      }
    }
  }

  lemma LaterItem(sels: seq<Sequence>, kids: seq<Node>, n: nat)
    requires sels != [] && forall k :: k in kids ==> k.Leaf?
    requires 1 + |kids| <= n < |sels| * (1 + |kids|)
    ensures n - (1 + |kids|) < |sels[1..]| * (1 + |kids|)
    ensures ListItem(sels, kids, n) == ListItem(sels[1..], kids, n - (1 + |kids|))
  {
    hide PathOf;
    var m := 1 + |kids|;
    var n' := n - m;
    OneLess(|sels|, m);
    Quotient(n', m, |sels| - 1);
    PutTogether(n' / m + 1, n' % m, m);
    assert (n' / m + 1) * m == m * (n' / m) + m;
  }

  lemma OneLess(q: nat, m: nat)
    requires q > 0
    ensures q * m == m + (q - 1) * m
  {
  }

  // ---- Clashes of a rule's list -------------------------------------------------------------------

  lemma ListClash(way: Way, sels: seq<Sequence>, kids: seq<Node>)
    requires forall k :: k in kids ==> k.Leaf?
    requires forall i, j :: 0 <= i < j < |kids| ==> kids[i] != kids[j]
    ensures Clash(way, ListItems(sels, kids)) <==> kids != [] && exists i: nat, j: nat :: MeetBy(way, sels, i, j)
  {
    hide ClashAt, MeetBy, ListItems, ListItem;
    var items := ListItems(sels, kids);
    if Clash(way, items) {
      var i: nat, j: nat :| ClashAt(way, items, i, j);
      var a, b := ClashMeets(way, sels, kids, i, j);
    }
    if kids != [] && exists i: nat, j: nat :: MeetBy(way, sels, i, j) {
      var i: nat, j: nat :| MeetBy(way, sels, i, j);
      MeetsClash(way, sels, kids, i, j);
    }
  }

  lemma SameKid(kids: seq<Node>, r: nat, s: nat)
    requires forall k :: k in kids ==> k.Leaf?
    requires forall i, j :: 0 <= i < j < |kids| ==> kids[i] != kids[j]
    requires 0 < r <= |kids| && 0 < s <= |kids| && kids[r - 1].decl == kids[s - 1].decl
    ensures r == s
  {
    assert kids[r - 1] in kids && kids[s - 1] in kids;
    assert kids[r - 1] == kids[s - 1];
  }

  // The selector and the place in its rule that the n-th item is of.
  lemma ItemPlace(sels: seq<Sequence>, kids: seq<Node>, n: nat) returns (q: nat, r: nat)
    requires n < |sels| * (1 + |kids|) && forall k :: k in kids ==> k.Leaf?
    ensures q < |sels| && r <= |kids| && n == (1 + |kids|) * q + r
    ensures ListItem(sels, kids, n).path == PathOf(sels[q])
    ensures ListItem(sels, kids, n).decl.Some? ==> r > 0 && ListItem(sels, kids, n).decl.value == kids[r - 1].decl
  {
    Quotient(n, 1 + |kids|, |sels|);
    q, r := n / (1 + |kids|), n % (1 + |kids|);
  }

  // Two places of one declaration.
  lemma EqualItems(sels: seq<Sequence>, kids: seq<Node>, i: nat, j: nat) returns (a: nat, b: nat, r: nat)
    requires forall k :: k in kids ==> k.Leaf?
    requires forall i, j :: 0 <= i < j < |kids| ==> kids[i] != kids[j]
    requires i < j < |sels| * (1 + |kids|)
    requires ListItem(sels, kids, i) == ListItem(sels, kids, j) && ListItem(sels, kids, i).decl.Some?
    ensures a < b < |sels| && 0 < r <= |kids| && i == (1 + |kids|) * a + r && j == (1 + |kids|) * b + r
    ensures PathOf(sels[a]) == PathOf(sels[b]) == ListItem(sels, kids, i).path
  {
    hide PathOf, ListItem;
    var s: nat;
    a, r := ItemPlace(sels, kids, i);
    b, s := ItemPlace(sels, kids, j);
    SameKid(kids, r, s);
    InOrder(a, b, r, s, 1 + |kids|);
  }

  lemma HeaderItem(sels: seq<Sequence>, kids: seq<Node>, k: nat)
    requires k < |sels| && forall k :: k in kids ==> k.Leaf?
    ensures k * (1 + |kids|) < |sels| * (1 + |kids|)
    ensures ListItem(sels, kids, k * (1 + |kids|)) == Item(PathOf(sels[k]), None)
  {
    Times(1 + |kids|, k + 1, |sels|);
    PutTogether(k, 0, 1 + |kids|);
  }

  lemma ClashMeets(way: Way, sels: seq<Sequence>, kids: seq<Node>, i: nat, j: nat) returns (a: nat, b: nat)
    requires forall k :: k in kids ==> k.Leaf?
    requires forall i, j :: 0 <= i < j < |kids| ==> kids[i] != kids[j]
    requires ClashAt(way, ListItems(sels, kids), i, j)
    ensures kids != [] && MeetBy(way, sels, a, b)
  {
    hide PathOf, ListItem, Passes;
    var m, items := 1 + |kids|, ListItems(sels, kids);
    var r: nat;
    a, b, r := EqualItems(sels, kids, i, j);
    forall k | a < k < b ensures Passes(way, PathOf(sels[k]), PathOf(sels[a])) {
      HeaderBetween(a, k, b, r, r, m);
      HeaderItem(sels, kids, k);
      var n := k * m;
      assert i < n < j && items[n] == ListItem(sels, kids, n);
    }
  }

  lemma InOrder(a: nat, b: nat, r: nat, s: nat, m: nat)
    requires r == s < m && m * a + r < m * b + s
    ensures a < b
  {
    if b <= a {
      Times(m, b, a);
    }
  }

  lemma HeaderBetween(a: nat, k: nat, b: nat, r: nat, s: nat, m: nat)
    requires a < k < b && r < m && s < m && s > 0
    ensures m * a + r < k * m < m * b + s
  {
    Times(m, a + 1, k);
    Times(m, k + 1, b);
  }

  lemma MeetsClash(way: Way, sels: seq<Sequence>, kids: seq<Node>, a: nat, b: nat)
    requires (forall k :: k in kids ==> k.Leaf?) && kids != [] && MeetBy(way, sels, a, b)
    ensures Clash(way, ListItems(sels, kids))
  {
    var m, items := 1 + |kids|, ListItems(sels, kids);
    var i, j := a * m + 1, b * m + 1;
    Places(a, b, m, |sels|);
    SamePlace(way, sels, kids, a, b);
    hide PathOf, MeetBy, Passes;
    forall n | i < n < j ensures Passes(way, items[n].path, items[i].path) {
      ItemBetween(way, sels, kids, a, b, n);
    }
    assert ClashAt(way, items, i, j);
  }

  lemma ItemBetween(way: Way, sels: seq<Sequence>, kids: seq<Node>, a: nat, b: nat, n: nat)
    requires (forall k :: k in kids ==> k.Leaf?) && MeetBy(way, sels, a, b)
    requires a * (1 + |kids|) + 1 < n < b * (1 + |kids|) + 1 < |sels| * (1 + |kids|)
    ensures Passes(way, ListItem(sels, kids, n).path, PathOf(sels[a]))
  {
    hide Passes;
    var m := 1 + |kids|;
    Quotient(n, m, |sels|);
    Between(a, n / m, b, n, m);
    PassesNear(way, PathOf(sels[a]), PathOf(sels[a]));
  }

  lemma Places(a: nat, b: nat, m: nat, q: nat)
    requires a < b < q && m > 1
    ensures a * m + 1 < b * m + 1 < q * m
  {
    Times(m, a + 1, b);
    Times(m, b + 1, q);
  }

  lemma SamePlace(way: Way, sels: seq<Sequence>, kids: seq<Node>, a: nat, b: nat)
    requires (forall k :: k in kids ==> k.Leaf?) && kids != [] && MeetBy(way, sels, a, b)
    requires a * (1 + |kids|) + 1 < b * (1 + |kids|) + 1 < |sels| * (1 + |kids|)
    ensures
      var m := 1 + |kids|;
      ListItem(sels, kids, a * m + 1) == ListItem(sels, kids, b * m + 1) == Item(PathOf(sels[a]), Some(kids[0].decl))
  {
    PutTogether(a, 1, 1 + |kids|);
    PutTogether(b, 1, 1 + |kids|);
  }

  lemma Between(a: nat, k: nat, b: nat, n: nat, m: nat)
    requires m > 0 && a * m + 1 < n < b * m + 1 && m * k <= n < m * k + m
    ensures a <= k <= b
  {
    if k < a {
      Times(m, k + 1, a);
    }
    if k > b {
      Times(m, b + 1, k);
    }
  }

  // ---- Stylesheets ----------------------------------------------------------------------------------

  lemma DisjointClash(way: Way, a: seq<Item>, b: seq<Item>)
    requires forall i, j :: 0 <= i < |a| && 0 <= j < |b| && a[i].decl.Some? ==> a[i].decl != b[j].decl
    ensures Clash(way, a + b) <==> Clash(way, a) || Clash(way, b)
  {
    hide Passes;
    var all := a + b;
    if Clash(way, a) {
      var i: nat, j: nat :| ClashAt(way, a, i, j);
      assert ClashAt(way, all, i, j);
    }
    if Clash(way, b) {
      var i: nat, j: nat :| ClashAt(way, b, i, j);
      forall k | |a| + i < k < |a| + j ensures Passes(way, all[k].path, all[|a| + i].path) {
        assert all[k] == b[k - |a|];
      }
      assert ClashAt(way, all, |a| + i, |a| + j);
    }
    if Clash(way, all) {
      var i: nat, j: nat :| ClashAt(way, all, i, j);
      if j < |a| {
        forall k | i < k < j ensures Passes(way, a[k].path, a[i].path) {
          assert all[k] == a[k];
        }
        assert ClashAt(way, a, i, j);
      } else {
        assert i >= |a|;
        forall k | i - |a| < k < j - |a| ensures Passes(way, b[k].path, b[i - |a|].path) {
          assert all[k + |a|] == b[k];
        }
        assert ClashAt(way, b, i - |a|, j - |a|);
      }
    }
  }

  // Every declaration is one object.
  ghost predicate Distinct(ns: seq<Node>) {
    forall d :: Decls(ns)[d] <= 1
  }

  lemma {:induction false} KidsDecls(kids: seq<Node>, d: Decl)
    requires Leaf(d) in kids
    ensures d in Decls(kids)
  {
    if kids[0] != Leaf(d) {
      KidsDecls(kids[1..], d);
    }
  }

  lemma DistinctSplit(ns: seq<Node>)
    requires ns != [] && Distinct(ns)
    ensures Distinct(ns[1..]) && forall d :: NodeDecls(ns[0])[d] <= 1
    ensures forall d :: d in NodeDecls(ns[0]) ==> d !in Decls(ns[1..])
  {
    forall d ensures Decls(ns[1..])[d] <= 1 && NodeDecls(ns[0])[d] <= 1 && (d in NodeDecls(ns[0]) ==> d !in Decls(ns[1..])) {
      assert Decls(ns)[d] <= 1;
    }
  }

  lemma {:induction false} DistinctKids(kids: seq<Node>)
    requires Distinct(kids) && forall k :: k in kids ==> k.Leaf?
    ensures forall i, j :: 0 <= i < j < |kids| ==> kids[i] != kids[j]
  {
    if kids != [] {
      DistinctSplit(kids);
      DistinctKids(kids[1..]);
      forall j | 0 < j < |kids| ensures kids[0] != kids[j] {
        assert kids[j] == kids[1..][j - 1];
        if kids[0] == kids[j] {
          KidsDecls(kids[1..], kids[0].decl);
        }
      }
    }
  }

  lemma PlainRule(n: Node)
    requires PlainNode(n) && n.Rule?
    ensures ExpandNode(n) == ExpandRule(n.sels, n.children)
    ensures Items(NestSeqs, ExpandNode(n)) == ListItems(n.sels, n.children)
  {
    ExpandedItems(n.sels, n.children);
    if |n.sels| == 1 {
      assert ExpandRule(n.sels[1..], n.children) == [];
      assert n.sels == [n.sels[0]];
    }
  }

  lemma {:induction false} ExpandedDecls(ns: seq<Node>)
    requires PlainCss(ns)
    ensures forall i :: i in Items(NestSeqs, Expanded(ns)) && i.decl.Some? ==> i.decl.value in Decls(ns)
  {
    if ns != [] {
      assert ns[0] in ns;
      ExpandedDecls(ns[1..]);
      NodeItemDecls(ns[0]);
      ItemsAppend(NestSeqs, ExpandNode(ns[0]), Expanded(ns[1..]));
    }
  }

  lemma NodeItemDecls(n: Node)
    requires PlainNode(n)
    ensures forall i :: i in Items(NestSeqs, ExpandNode(n)) && i.decl.Some? ==> i.decl.value in NodeDecls(n)
  {
    match n
    case Leaf(_) => ItemsOne(NestSeqs, n);
    case Directive(h, kids) => ItemsOne(NestSeqs, Directive(h, Expanded(kids)));
    case Rule(sels, kids) =>
      PlainRule(n);
      ListDecls(sels, kids);
  }

  lemma ListDecls(sels: seq<Sequence>, kids: seq<Node>)
    requires forall k :: k in kids ==> k.Leaf?
    ensures forall i :: i in ListItems(sels, kids) && i.decl.Some? ==> i.decl.value in Decls(kids)
  {
    var items, m := ListItems(sels, kids), 1 + |kids|;
    forall i | i in items && i.decl.Some? ensures i.decl.value in Decls(kids) {
      var x :| 0 <= x < |items| && items[x] == i;
      Quotient(x, m, |sels|);
      assert i.decl.value == kids[x % m - 1].decl;
      assert kids[x % m - 1] in kids;
      KidsDecls(kids, i.decl.value);
    }
  }

  /** No two places of a declaration come together in the list or in its directives. */
  ghost predicate Apart(way: Way, ns: seq<Node>)
    decreases ns, 1
  {
    !Clash(way, Items(NestSeqs, ns)) && DirectivesApart(way, ns)
  }

  ghost predicate DirectivesApart(way: Way, ns: seq<Node>)
    decreases ns, 0
  {
    forall n :: n in ns && n.Directive? ==> Apart(way, n.children)
  }

  lemma DirectivesSplit(way: Way, a: seq<Node>, b: seq<Node>)
    ensures DirectivesApart(way, a + b) <==> DirectivesApart(way, a) && DirectivesApart(way, b)
  {
    hide Apart;
    forall n | n in a ensures n in a + b {
    }
    forall n | n in b ensures n in a + b {
    }
  }

  /** The places of declarations are apart exactly when no rule that says something lists a
      selector twice with nothing in the way. */
  lemma {:induction false} ApartIff(way: Way, ns: seq<Node>)
    requires PlainCss(ns) && Distinct(ns)
    ensures Apart(way, Expanded(ns)) <==> NoneMeetBy(way, ns)
    decreases ns, 1
  {
    if ns == [] {
      assert !Clash(way, []);
    } else {
      var n, tail := ns[0], ns[1..];
      assert n in ns && ns == [n] + tail;
      DistinctSplit(ns);
      NodeApartIff(way, n);
      ApartIff(way, tail);
      ExpandedDecls(tail);
      NodeItemDecls(n);
      var a, b := Items(NestSeqs, ExpandNode(n)), Items(NestSeqs, Expanded(tail));
      ItemsAppend(NestSeqs, ExpandNode(n), Expanded(tail));
      DirectivesSplit(way, ExpandNode(n), Expanded(tail));
      forall i, j | 0 <= i < |a| && 0 <= j < |b| && a[i].decl.Some? ensures a[i].decl != b[j].decl {
        assert a[i] in a && b[j] in b;
      }
      DisjointClash(way, a, b);
    }
  }

  lemma {:induction false} NodeApartIff(way: Way, n: Node)
    requires PlainNode(n) && forall d :: NodeDecls(n)[d] <= 1
    ensures Apart(way, ExpandNode(n)) <==> NodeNoneMeetBy(way, n)
    decreases n, 0
  {
    if !n.Leaf? {
      forall d ensures Decls(n.children)[d] <= 1 {
        assert NodeDecls(n)[d] <= 1;
      }
    }
    match n
    case Leaf(_) =>
      ItemsOne(NestSeqs, n);
    case Directive(h, kids) =>
      ApartIff(way, kids);
      var d := Directive(h, Expanded(kids));
      ItemsOne(NestSeqs, d);
      assert d in ExpandNode(n) && !Clash(way, []);
    case Rule(sels, kids) =>
      PlainRule(n);
      DistinctKids(kids);
      ListClash(way, sels, kids);
      RulesOnly(sels, kids);
  }

  lemma {:induction false} RulesOnly(sels: seq<Sequence>, kids: seq<Node>)
    ensures forall n :: n in ExpandRule(sels, kids) ==> n.Rule?
  {
    if sels != [] {
      RulesOnly(sels[1..], kids);
    }
  }

  // ---- By nest_seqs ---------------------------------------------------------------------------------

  lemma PathsKeys(s: Sequence, t: Sequence)
    ensures PathOf(s) == PathOf(t) <==> Keys(Clean(s)) == Keys(Clean(t))
    ensures Passes(OnePass, PathOf(s), PathOf(t)) <==> Keys(Clean(s)) <= Keys(Clean(t)) || Keys(Clean(t)) <= Keys(Clean(s))
  {
    TokensComparable(Keys(Clean(s)), Keys(Clean(t)));
  }

  lemma MeetByOnePass(sels: seq<Sequence>, i: nat, j: nat)
    ensures MeetBy(OnePass, sels, i, j) <==> MeetAgain(sels, i, j)
  {
    hide PathOf, Passes, Keys, Clean;
    forall k, l | 0 <= k < |sels| && 0 <= l < |sels|
      ensures PathOf(sels[k]) == PathOf(sels[l]) <==> Keys(Clean(sels[k])) == Keys(Clean(sels[l]))
      ensures Passes(OnePass, PathOf(sels[k]), PathOf(sels[l])) <==>
        Keys(Clean(sels[k])) <= Keys(Clean(sels[l])) || Keys(Clean(sels[l])) <= Keys(Clean(sels[k]))
    {
      PathsKeys(sels[k], sels[l]);
    }
  }

  lemma {:induction false} NoneMeetByOnePass(ns: seq<Node>)
    ensures NoneMeetBy(OnePass, ns) <==> NoneMeetAgain(ns)
  {
    hide MeetBy, MeetAgain;
    forall n | n in ns ensures NodeNoneMeetBy(OnePass, n) <==> NodeNoneMeetAgain(n) {
      match n {
        case Leaf(_) =>
        case Directive(_, kids) => NoneMeetByOnePass(kids);
        case Rule(sels, kids) =>
          forall i: nat, j: nat ensures MeetBy(OnePass, sels, i, j) <==> MeetAgain(sels, i, j) {
            MeetByOnePass(sels, i, j);
          }
      }
    }
  }

  // What nest_seqs is given has directives, and rules with nothing but declarations.
  lemma {:induction false} ExpandedSafe(ns: seq<Node>)
    requires PlainCss(ns)
    ensures Safe(NestSeqs, Expanded(ns)) <==> Apart(OnePass, Expanded(ns))
    ensures Sealed(NestSeqs, Expanded(ns)) <==> DirectivesApart(OnePass, Expanded(ns))
    decreases ns
  {
    if ns != [] {
      var n, tail := ns[0], ns[1..];
      assert n in ns && ns == [n] + tail;
      ExpandedSafe(tail);
      SealedSplit(NestSeqs, ExpandNode(n), Expanded(tail));
      DirectivesSplit(OnePass, ExpandNode(n), Expanded(tail));
      match n {
        case Leaf(_) => SealedOne(NestSeqs, n);
        case Directive(h, kids) =>
          ExpandedSafe(kids);
          SealedOne(NestSeqs, Directive(h, Expanded(kids)));
          assert Directive(h, Expanded(kids)) in ExpandNode(n);
        case Rule(sels, kids) =>
          PlainRule(n);
          RulesSealed(sels, kids);
          RulesOnly(sels, kids);
      }
    }
  }

  /** nest_seqs drops nothing of a stylesheet exactly when no rule that says something lists a
      selector twice with only its beginnings and continuations between. */
  lemma NestedSafeIff(ns: seq<Node>)
    requires PlainCss(ns) && Distinct(ns)
    ensures Safe(NestSeqs, Expanded(ns)) <==> NoneMeetAgain(ns)
  {
    ExpandedSafe(ns);
    ApartIff(OnePass, ns);
    NoneMeetByOnePass(ns);
  }

  lemma {:induction false} RulesSealed(sels: seq<Sequence>, kids: seq<Node>)
    requires (forall s :: s in sels ==> SelectorReady(NestSeqs, s)) && forall k :: k in kids ==> k.Leaf?
    ensures Sealed(NestSeqs, ExpandRule(sels, kids))
  {
    if sels != [] {
      var n := Rule([sels[0]], kids);
      assert sels[0] in sels && Open(NestSeqs, n);
      assert Sealed(NestSeqs, kids);
      assert NodeSealed(NestSeqs, n);
      RulesSealed(sels[1..], kids);
      SealedSplit(NestSeqs, [n], ExpandRule(sels[1..], kids));
      SealedOne(NestSeqs, n);
    }
  }
}
