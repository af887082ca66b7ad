// Where a merging pass, or both passes, bring the same declaration together twice, told from
// the places of the declarations before.
module Clashes {
  import opened Selectors
  import opened StyleTree
  import opened OutOfWay

  // A declaration, or a rule as such, and the starts of selectors that lead to it.
  datatype Item = Item(path: seq<Token>, decl: Option<Decl>)

  /** One declaration stands twice at the same place, and no rule between is in the way. */
  ghost predicate ClashAt(way: Way, items: seq<Item>, i: nat, j: nat) {
    i < j < |items| && items[i].decl.Some? && items[i] == items[j] &&
    forall k :: i < k < j ==> Passes(way, items[k].path, items[i].path)
  }

  ghost predicate Clash(way: Way, items: seq<Item>) {
    exists i: nat, j: nat :: ClashAt(way, items, i, j)
  }

  function Inside(path: seq<Token>, items: seq<Item>): (r: seq<Item>)
    ensures |r| == |items|
    ensures forall k :: 0 <= k < |r| ==> r[k] == Item(path + items[k].path, items[k].decl)
  {
    seq(|items|, k requires 0 <= k < |items| => Item(path + items[k].path, items[k].decl))
  }

  lemma InsideAppend(path: seq<Token>, a: seq<Item>, b: seq<Item>)
    ensures Inside(path, a + b) == Inside(path, a) + Inside(path, b)
  {
  }

  lemma InsideNothing(items: seq<Item>)
    ensures Inside([], items) == items
  {
    forall k | 0 <= k < |items| ensures Inside([], items)[k] == items[k] {
      assert [] + items[k].path == items[k].path;
    }
  }

  lemma InsideTwice(u: seq<Token>, v: seq<Token>, items: seq<Item>)
    ensures Inside(u, Inside(v, items)) == Inside(u + v, items)
  {
    var a, b := Inside(u, Inside(v, items)), Inside(u + v, items);
    forall k | 0 <= k < |items| ensures a[k] == b[k] {
      assert u + (v + items[k].path) == u + v + items[k].path;
    }
  }

  // ---- One item more --------------------------------------------------------------------------

  // The place in p + [z] + r of an item of p + r.
  function Shift(n: nat, k: nat): nat {
    if k < n then k else k + 1
  }

  lemma AtShift(p: seq<Item>, z: Item, r: seq<Item>, k: nat)
    requires k < |p + r|
    ensures Shift(|p|, k) < |p + [z] + r| && (p + [z] + r)[Shift(|p|, k)] == (p + r)[k]
  {
  }

  // An item less between two others is never in the way.
  lemma WithoutItem(way: Way, p: seq<Item>, z: Item, r: seq<Item>, i: nat, j: nat)
    requires ClashAt(way, p + [z] + r, Shift(|p|, i), Shift(|p|, j)) && i < |p + r| && j < |p + r|
    ensures ClashAt(way, p + r, i, j)
  {
    hide Passes;
    var all, less := p + [z] + r, p + r;
    AtShift(p, z, r, i);
    AtShift(p, z, r, j);
    forall k | i < k < j ensures Passes(way, less[k].path, less[i].path) {
      AtShift(p, z, r, k);
      assert Shift(|p|, i) < Shift(|p|, k) < Shift(|p|, j);
    }
  }

  // One more is not, when it is not in the way of the place.
  lemma WithItem(way: Way, p: seq<Item>, z: Item, r: seq<Item>, i: nat, j: nat)
    requires ClashAt(way, p + r, i, j) && (i < |p| <= j ==> Passes(way, z.path, (p + r)[i].path))
    ensures ClashAt(way, p + [z] + r, Shift(|p|, i), Shift(|p|, j))
  {
    hide Passes;
    var all, less := p + [z] + r, p + r;
    AtShift(p, z, r, i);
    AtShift(p, z, r, j);
    forall k | Shift(|p|, i) < k < Shift(|p|, j) ensures Passes(way, all[k].path, less[i].path) {
      if k == |p| {
        assert all[k] == z;
      } else {
        var k' := if k < |p| then k else k - 1;
        AtShift(p, z, r, k');
        assert i < k' < j;
      }
    }
  }

  lemma Unshift(n: nat, k: nat)
    requires k != n
    ensures Shift(n, if k < n then k else k - 1) == k
  {
  }

  // Two places neither of which is z are places without z.
  lemma OtherPlaces(way: Way, p: seq<Item>, z: Item, r: seq<Item>, i: nat, j: nat)
    requires ClashAt(way, p + [z] + r, i, j) && i != |p| && j != |p|
    ensures Clash(way, p + r)
  {
    Unshift(|p|, i);
    Unshift(|p|, j);
    WithoutItem(way, p, z, r, if i < |p| then i else i - 1, if j < |p| then j else j - 1);
  }

  /** A declaration of the list itself clashes with every other occurrence, and is in nobody's
      way. */
  lemma LeafInsert(way: Way, p: seq<Item>, z: Item, r: seq<Item>)
    requires z.path == [] && z.decl.Some?
    ensures Clash(way, p + [z] + r) <==> Clash(way, p + r) || z in p || z in r
  {
    hide Passes;
    var all := p + [z] + r;
    forall v ensures Passes(way, [], v) && Passes(way, v, []) {
      PassesNear(way, v, []);
      PassesNear(way, [], v);
    }
    if Clash(way, p + r) {
      var i: nat, j: nat :| ClashAt(way, p + r, i, j);
      WithItem(way, p, z, r, i, j);
    }
    if z in p {
      var i :| 0 <= i < |p| && p[i] == z;
      assert all[i] == z && all[|p|] == z;
      assert ClashAt(way, all, i, |p|);
    }
    if z in r {
      var i :| 0 <= i < |r| && r[i] == z;
      assert all[|p|] == z && all[|p| + 1 + i] == z;
      assert ClashAt(way, all, |p|, |p| + 1 + i);
    }
    if Clash(way, all) {
      var i: nat, j: nat :| ClashAt(way, all, i, j);
      if i == |p| {
        assert all[j] == z && all[j] == r[j - |p| - 1];
      } else if j == |p| {
        assert all[i] == z && all[i] == p[i];
      } else {
        OtherPlaces(way, p, z, r, i, j);
      }
    }
  }

  /** A rule that another one next to it lies in, or that stands for itself, says nothing
      more. */
  lemma RuleInsert(way: Way, p: seq<Item>, z: Item, r: seq<Item>)
    requires z.decl.None?
    requires (p != [] && z.path <= p[|p| - 1].path) || (r != [] && z.path <= r[0].path)
    ensures Clash(way, p + [z] + r) <==> Clash(way, p + r)
  {
    hide Passes;
    var all, less := p + [z] + r, p + r;
    if Clash(way, less) {
      var i: nat, j: nat :| ClashAt(way, less, i, j);
      if i < |p| <= j {
        var n := if p != [] && z.path <= p[|p| - 1].path then |p| - 1 else |p|;
        assert z.path <= less[n].path && i <= n <= j;
        PassesNear(way, less[i].path, less[i].path);
        PassesPrefix(way, z.path, less[n].path, less[i].path);
      }
      WithItem(way, p, z, r, i, j);
    }
    if Clash(way, all) {
      var i: nat, j: nat :| ClashAt(way, all, i, j);
      assert all[|p|] == z;
      OtherPlaces(way, p, z, r, i, j);
    }
  }

  // ---- Exchanges that change nothing --------------------------------------------------------------

  // The place of an item when those at n and n + 1 change places.
  function Crossed(n: nat, k: nat): nat {
    if k == n then n + 1 else if k == n + 1 then n else k
  }

  lemma CrossedAt(p: seq<Item>, a: Item, b: Item, r: seq<Item>, k: nat)
    requires k < |p + [a, b] + r|
    ensures Crossed(|p|, k) < |p + [b, a] + r| && (p + [b, a] + r)[Crossed(|p|, k)] == (p + [a, b] + r)[k]
  {
  }

  // Places one of which lies in the other are in nobody's way.
  lemma SwapOne(way: Way, p: seq<Item>, a: Item, b: Item, r: seq<Item>)
    requires Comparable(a.path, b.path) && Clash(way, p + [a, b] + r)
    ensures Clash(way, p + [b, a] + r)
  {
    hide Passes, Crossed;
    var before, after, n := p + [a, b] + r, p + [b, a] + r, |p|;
    var i: nat, j: nat :| ClashAt(way, before, i, j);
    PassesNear(way, a.path, b.path);
    PassesNear(way, b.path, a.path);
    CrossedAt(p, a, b, r, i);
    CrossedAt(p, a, b, r, j);
    CrossedOrder(n, i, j);
    var i', j' := Crossed(n, i), Crossed(n, j);
    if i == n && j == n + 1 {
      assert before[n] == a && before[n + 1] == b && after[n] == b;
      assert ClashAt(way, after, n, n + 1);
    } else {
      forall k | i' < k < j' ensures Passes(way, after[k].path, after[i'].path) {
        CrossedBetween(n, i, j, k);
        CrossedAt(p, b, a, r, k);
        assert before[n] == a && before[n + 1] == b;
      }
      assert ClashAt(way, after, i', j');
    }
  }

  lemma CrossedOrder(n: nat, i: nat, j: nat)
    requires i < j
    ensures (i == n && j == n + 1) || Crossed(n, i) < Crossed(n, j)
  {
  }

  // What comes between two places was there before, or crossed one of them.
  lemma CrossedBetween(n: nat, i: nat, j: nat, k: nat)
    requires i < j && Crossed(n, i) < k < Crossed(n, j)
    ensures i < Crossed(n, k) < j || (i == n + 1 && Crossed(n, k) == n) || (j == n && Crossed(n, k) == n + 1)
  {
  }

  /** Wherever the one list of items stands, the other could stand. */
  ghost predicate Alike(way: Way, a: seq<Item>, b: seq<Item>) {
    forall p, path, r :: Clash(way, p + Inside(path, a) + r) <==> Clash(way, p + Inside(path, b) + r)
  }

  lemma AlikeClash(way: Way, a: seq<Item>, b: seq<Item>)
    requires Alike(way, a, b)
    ensures Clash(way, a) <==> Clash(way, b)
  {
    hide Clash;
    InsideNothing(a);
    InsideNothing(b);
    assert Clash(way, [] + Inside([], a) + []) <==> Clash(way, [] + Inside([], b) + []);
    assert [] + a + [] == a && [] + b + [] == b;
  }

  lemma AlikeTwice(way: Way, a: seq<Item>, b: seq<Item>, c: seq<Item>)
    requires Alike(way, a, b) && Alike(way, b, c)
    ensures Alike(way, a, c)
  {
    hide Clash;
    forall p, path, r ensures Clash(way, p + Inside(path, a) + r) <==> Clash(way, p + Inside(path, c) + r) {
      assert Clash(way, p + Inside(path, a) + r) <==> Clash(way, p + Inside(path, b) + r);
    }
  }

  lemma AlikeOther(way: Way, a: seq<Item>, b: seq<Item>)
    requires Alike(way, a, b)
    ensures Alike(way, b, a)
  {
  }

  lemma AlikeAround(way: Way, x: seq<Item>, a: seq<Item>, b: seq<Item>, y: seq<Item>)
    requires Alike(way, a, b)
    ensures Alike(way, x + a + y, x + b + y)
  {
    hide Clash;
    forall p, path, r
      ensures Clash(way, p + Inside(path, x + a + y) + r) <==> Clash(way, p + Inside(path, x + b + y) + r)
    {
      Around(p, path, x, a, y, r);
      Around(p, path, x, b, y, r);
      assert Clash(way, (p + Inside(path, x)) + Inside(path, a) + (Inside(path, y) + r)) <==>
        Clash(way, (p + Inside(path, x)) + Inside(path, b) + (Inside(path, y) + r));
    }
  }

  lemma Around(p: seq<Item>, path: seq<Token>, x: seq<Item>, a: seq<Item>, y: seq<Item>, r: seq<Item>)
    ensures p + Inside(path, x + a + y) + r == (p + Inside(path, x)) + Inside(path, a) + (Inside(path, y) + r)
  {
    InsideAppend(path, x + a, y);
    InsideAppend(path, x, a);
  }

  lemma AlikeBoth(way: Way, a: seq<Item>, a': seq<Item>, b: seq<Item>, b': seq<Item>)
    requires Alike(way, a, a') && Alike(way, b, b')
    ensures Alike(way, a + b, a' + b')
  {
    hide Alike;
    AlikeAround(way, [], a, a', b);
    AlikeAround(way, a', b, b', []);
    assert [] + a + b == a + b && [] + a' + b == a' + b == a' + b + [] && a' + b' + [] == a' + b';
    AlikeTwice(way, a + b, a' + b, a' + b');
  }

  // With the same behind them, which belonged to what the one list ended with.
  lemma AlikeBehind(way: Way, x: seq<Item>, i: seq<Item>, y: seq<Item>, rest: seq<Item>)
    requires Alike(way, x + i, y)
    ensures Alike(way, x + (i + rest), y + rest)
  {
    hide Alike;
    AlikeAround(way, [], x + i, y, rest);
    assert [] + (x + i) + rest == x + (i + rest) && [] + y + rest == y + rest;
  }

  lemma AlikeInside(way: Way, q: seq<Token>, a: seq<Item>, b: seq<Item>)
    requires Alike(way, a, b)
    ensures Alike(way, Inside(q, a), Inside(q, b))
  {
    hide Clash;
    forall p, path, r
      ensures Clash(way, p + Inside(path, Inside(q, a)) + r) <==> Clash(way, p + Inside(path, Inside(q, b)) + r)
    {
      InsideTwice(path, q, a);
      InsideTwice(path, q, b);
      assert Clash(way, p + Inside(path + q, a) + r) <==> Clash(way, p + Inside(path + q, b) + r);
    }
  }

  lemma RuleAlike(way: Way, c: seq<Item>, z: Item, d: seq<Item>)
    requires z.decl.None?
    requires (c != [] && z.path <= c[|c| - 1].path) || (d != [] && z.path <= d[0].path)
    ensures Alike(way, c + [z] + d, c + d)
  {
    hide Clash;
    forall p, path, r ensures Clash(way, p + Inside(path, c + [z] + d) + r) <==> Clash(way, p + Inside(path, c + d) + r) {
      var ic, id, iz := Inside(path, c), Inside(path, d), Item(path + z.path, None);
      AroundRule(p, path, c, z, d, r);
      if c != [] && z.path <= c[|c| - 1].path {
        PrefixInside(path, z.path, c[|c| - 1].path);
        assert (p + ic)[|p + ic| - 1] == ic[|c| - 1];
      } else {
        PrefixInside(path, z.path, d[0].path);
        assert (id + r)[0] == id[0];
      }
      RuleInsert(way, p + ic, iz, id + r);
    }
  }

  lemma AroundRule(p: seq<Item>, path: seq<Token>, c: seq<Item>, z: Item, d: seq<Item>, r: seq<Item>)
    ensures p + Inside(path, c + [z] + d) + r ==
      (p + Inside(path, c)) + [Item(path + z.path, z.decl)] + (Inside(path, d) + r)
    ensures p + Inside(path, c + d) + r == (p + Inside(path, c)) + (Inside(path, d) + r)
  {
    InsideAppend(path, c + [z], d);
    InsideAppend(path, c, [z]);
    InsideAppend(path, c, d);
    assert Inside(path, [z]) == [Item(path + z.path, z.decl)];
  }

  lemma SwapAlike(way: Way, a: Item, b: Item)
    requires a.path <= b.path
    ensures Alike(way, [a, b], [b, a])
  {
    hide Clash;
    forall p, path, r ensures Clash(way, p + Inside(path, [a, b]) + r) <==> Clash(way, p + Inside(path, [b, a]) + r) {
      var x, y := Item(path + a.path, a.decl), Item(path + b.path, b.decl);
      assert Inside(path, [a, b]) == [x, y] && Inside(path, [b, a]) == [y, x];
      PrefixInside(path, a.path, b.path);
      if Clash(way, p + [x, y] + r) {
        SwapOne(way, p, x, y, r);
      }
      if Clash(way, p + [y, x] + r) {
        SwapOne(way, p, y, x, r);
      }
    }
  }

  ghost predicate AllHere(items: seq<Item>) {
    forall k :: 0 <= k < |items| ==> items[k].path == [] && items[k].decl.Some?
  }

  lemma {:induction false} MoveOne(way: Way, z: Item, b: seq<Item>)
    requires z.path == []
    ensures Alike(way, [z] + b, b + [z])
    decreases |b|
  {
    hide Alike;
    if b == [] {
      assert [z] + b == [z] && b + [z] == [z];
      AlikeSame(way, [z]);
    } else {
      var x, rest := b[0], b[1..];
      SwapAlike(way, z, x);
      AlikeAround(way, [], [z, x], [x, z], rest);
      MoveOne(way, z, rest);
      AlikeAround(way, [x], [z] + rest, rest + [z], []);
      assert [] + [z, x] + rest == [z] + b;
      assert [] + [x, z] + rest == [x] + ([z] + rest) + [];
      assert [x] + (rest + [z]) + [] == b + [z];
      AlikeTwice(way, [z] + b, [x] + ([z] + rest) + [], b + [z]);
    }
  }

  lemma AlikeSame(way: Way, a: seq<Item>)
    ensures Alike(way, a, a)
  {
  }

  // Declarations of the list itself may stand anywhere in it.
  lemma {:induction false} MoveLeaves(way: Way, leaves: seq<Item>, b: seq<Item>)
    requires AllHere(leaves)
    ensures Alike(way, leaves + b, b + leaves)
    decreases |leaves|
  {
    hide Alike;
    if leaves == [] {
      assert leaves + b == b == b + leaves;
      AlikeSame(way, b);
    } else {
      var z, rest := leaves[0], leaves[1..];
      MoveLeaves(way, rest, b);
      AlikeAround(way, [z], rest + b, b + rest, []);
      MoveOne(way, z, b);
      AlikeAround(way, [], [z] + b, b + [z], rest);
      assert leaves + b == [z] + (rest + b) + [];
      assert [z] + (b + rest) + [] == [] + ([z] + b) + rest;
      assert [] + (b + [z]) + rest == b + leaves;
      AlikeTwice(way, leaves + b, [] + ([z] + b) + rest, b + leaves);
    }
  }

  /** A rule takes in what comes behind it and the declarations next to it; the rule that
      stood there may go. */
  lemma TakeIn(way: Way, c: seq<Item>, y: seq<Item>, b: seq<Item>, below: seq<Item>, path: seq<Token>)
    requires AllHere(y) && c != [] && path <= c[|c| - 1].path
    requires b == below || b == [Item(path, None)] + below
    ensures Alike(way, c + y + b, c + below + y)
  {
    hide Alike, AllHere;
    MoveLeaves(way, y, b);
    AlikeAround(way, c, y + b, b + y, []);
    assert c + (y + b) + [] == c + y + b && c + (b + y) + [] == c + b + y;
    if b != below {
      var z := Item(path, None);
      RuleAlike(way, c, z, below + y);
      assert c + b + y == c + [z] + (below + y) && c + below + y == c + (below + y);
      AlikeTwice(way, c + y + b, c + b + y, c + below + y);
    }
  }

  lemma {:induction false} InsideClash(way: Way, path: seq<Token>, items: seq<Item>)
    ensures Clash(way, Inside(path, items)) <==> Clash(way, items)
  {
    hide Passes;
    var below := Inside(path, items);
    if Clash(way, items) {
      var i: nat, j: nat :| ClashAt(way, items, i, j);
      forall k | i < k < j ensures Passes(way, below[k].path, below[i].path) {
        PassesInside(way, path, items[k].path, items[i].path);
      }
      assert ClashAt(way, below, i, j);
    }
    if Clash(way, below) {
      var i: nat, j: nat :| ClashAt(way, below, i, j);
      SameInside(path, items[i].path, items[j].path);
      forall k | i < k < j ensures Passes(way, items[k].path, items[i].path) {
        PassesInside(way, path, items[k].path, items[i].path);
      }
      assert ClashAt(way, items, i, j);
    }
  }

  lemma HeadedClash(way: Way, path: seq<Token>, items: seq<Item>)
    ensures Clash(way, [Item(path, None)] + Inside(path, items)) <==> Clash(way, items)
  {
    hide Passes;
    var z, below := Item(path, None), Inside(path, items);
    InsideClash(way, path, items);
    if items != [] {
      assert below[0].path == path + items[0].path;
      RuleInsert(way, [], z, below);
      assert [] + [z] + below == [z] + below && [] + below == below;
    }
  }

  lemma SameInside(path: seq<Token>, u: seq<Token>, w: seq<Token>)
    requires path + u == path + w
    ensures u == w
  {
    assert (path + u)[|path|..] == u && (path + w)[|path|..] == w;
  }

  // What stands in a rule of this start.
  ghost predicate AllStart(items: seq<Item>, t: Token) {
    forall k :: 0 <= k < |items| ==> items[k].path != [] && items[k].path[0] == t
  }

  // The first rule starts otherwise.
  ghost predicate OtherFirst(items: seq<Item>, t: Token) {
    exists n: nat :: OtherAt(items, t, n)
  }

  ghost predicate OtherAt(items: seq<Item>, t: Token, n: nat) {
    n <= |items| && (forall k :: 0 <= k < n ==> items[k].path == []) &&
    (n < |items| ==> items[n].decl.None? && items[n].path != [] && items[n].path[0] != t)
  }

  /** Rules that start differently keep to themselves. */
  lemma BlockSplit(b: seq<Item>, r: seq<Item>, t: Token)
    requires AllStart(b, t) && OtherFirst(r, t)
    ensures Clash(OnePass, b + r) <==> Clash(OnePass, b) || Clash(OnePass, r)
  {
    var all := b + r;
    if Clash(OnePass, b) {
      var i: nat, j: nat :| ClashAt(OnePass, b, i, j);
      assert ClashAt(OnePass, all, i, j);
    }
    if Clash(OnePass, r) {
      var i: nat, j: nat :| ClashAt(OnePass, r, i, j);
      forall k | |b| + i < k < |b| + j ensures Comparable(all[k].path, all[|b| + i].path) {
        assert all[k] == r[k - |b|];
      }
      assert ClashAt(OnePass, all, |b| + i, |b| + j);
    }
    if Clash(OnePass, all) {
      var i: nat, j: nat :| ClashAt(OnePass, all, i, j);
      if j < |b| {
        forall k | i < k < j ensures Comparable(b[k].path, b[i].path) {
          assert all[k] == b[k];
        }
        assert ClashAt(OnePass, b, i, j);
      } else if i >= |b| {
        forall k | i - |b| < k < j - |b| ensures Comparable(r[k].path, r[i - |b|].path) {
          assert all[k + |b|] == r[k];
        }
        assert ClashAt(OnePass, r, i - |b|, j - |b|);
      } else {
        NoneAcross(b, r, t, i, j);
      }
    }
  }

  lemma NoneAcross(b: seq<Item>, r: seq<Item>, t: Token, i: nat, j: nat)
    requires AllStart(b, t) && OtherFirst(r, t) && i < |b| <= j < |b + r|
    ensures !ClashAt(OnePass, b + r, i, j)
  {
    var all := b + r;
    var n: nat :| OtherAt(r, t, n);
    assert all[i] == b[i] && all[j] == r[j - |b|];
    assert n < |r| ==> all[|b| + n] == r[n] && !Comparable(r[n].path, b[i].path);
  }
}
