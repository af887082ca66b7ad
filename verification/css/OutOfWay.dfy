// What may stand between two places of one declaration so that they still come together.
module OutOfWay {
  import opened Selectors

  // How a selector starts, as far as a pass compares it.
  datatype Token = ByKey(key: Key) | ByMember(member: Member)

  ghost predicate Comparable(u: seq<Token>, w: seq<Token>) {
    u <= w || w <= u
  }

  // ---- Both passes, one after the other ---------------------------------------------------------

  // A member as parent_ref_rules takes it apart: `.a.b` is `.a` and `&.b`.
  function SimplesOf(m: Member): (r: seq<Token>)
    ensures m.Op? ==> r == [ByMember(m)]
    ensures m.Compound? ==> |r| == |m.simples|
  {
    match m
    case Op(_) => [ByMember(m)]
    case Compound(ss) =>
      seq(|ss|, i requires 0 <= i < |ss| => ByMember(Compound(if i == 0 then [ss[0]] else [Parent, ss[i]])))
  }

  function Simples(s: Sequence): seq<Token> {
    if s == [] then [] else SimplesOf(s[0]) + Simples(s[1..])
  }

  predicate IsCombinator(t: Token) {
    t.ByMember? && t.member.Op?
  }

  predicate HasCombinator(s: Sequence) {
    exists m :: m in s && m.Op?
  }

  // One goes on where the other ends, or b turns off with a combinator.
  predicate Beside(a: seq<Token>, b: seq<Token>) {
    a == [] || b == [] || if a[0] == b[0] then Beside(a[1..], b[1..]) else IsCombinator(b[0])
  }

  /** The selector w is not in the way of v: up to the last combinator of v it is v's
      beginning, or has it as its own; and behind that, simple selector by simple selector, one
      goes on where the other ends, or w turns off with a combinator. */
  predicate OutOfTheWay(v: Sequence, w: Sequence) {
    if !HasCombinator(v) then Beside(Simples(v), Simples(w))
    else w == [] || (v[0] == w[0] && OutOfTheWay(v[1..], w[1..]))
  }

  lemma {:induction false} SimplesAppend(a: Sequence, b: Sequence)
    ensures Simples(a + b) == Simples(a) + Simples(b)
  {
    if a == [] {
      assert a + b == b;
    } else {
      assert (a + b)[1..] == a[1..] + b;
      SimplesAppend(a[1..], b);
      Assoc(SimplesOf(a[0]), Simples(a[1..]), Simples(b));
    }
  }

  lemma {:induction false} BesidePrefix(a: seq<Token>, z: seq<Token>, b: seq<Token>)
    requires Beside(a, b) && z <= b
    ensures Beside(a, z)
  {
    if a != [] && z != [] && a[0] == b[0] {
      assert z[1..] <= b[1..];
      BesidePrefix(a[1..], z[1..], b[1..]);
    }
  }

  lemma {:induction false} BesideLonger(a: seq<Token>, b: seq<Token>)
    ensures Beside(a, a + b)
  {
    if a != [] {
      assert (a + b)[1..] == a[1..] + b;
      BesideLonger(a[1..], b);
    }
  }

  lemma {:induction false} BesideInside(q: seq<Token>, a: seq<Token>, b: seq<Token>)
    ensures Beside(q + a, q + b) <==> Beside(a, b)
  {
    if q == [] {
      assert q + a == a && q + b == b;
    } else {
      assert (q + a)[1..] == q[1..] + a && (q + b)[1..] == q[1..] + b;
      BesideInside(q[1..], a, b);
    }
  }

  lemma CombinatorIn(a: Sequence, b: Sequence)
    ensures HasCombinator(a + b) <==> HasCombinator(a) || HasCombinator(b)
  {
    if m :| m in a && m.Op? {
      assert m in a + b;
    }
    if m :| m in b && m.Op? {
      assert m in a + b;
    }
  }

  lemma CombinatorTail(v: Sequence)
    requires v != []
    ensures HasCombinator(v) <==> v[0].Op? || HasCombinator(v[1..])
  {
    assert v == [v[0]] + v[1..];
    CombinatorIn([v[0]], v[1..]);
    assert v[0] in [v[0]];
  }

  lemma {:induction false} OutPrefix(v: Sequence, z: Sequence, w: Sequence)
    requires OutOfTheWay(v, w) && z <= w
    ensures OutOfTheWay(v, z)
  {
    if !HasCombinator(v) {
      assert w == z + w[|z|..];
      SimplesAppend(z, w[|z|..]);
      BesidePrefix(Simples(v), Simples(z), Simples(w));
    } else if z != [] {
      assert z[1..] <= w[1..];
      OutPrefix(v[1..], z[1..], w[1..]);
    }
  }

  lemma {:induction false} OutLonger(v: Sequence, w: Sequence)
    ensures OutOfTheWay(v, v + w)
  {
    if !HasCombinator(v) {
      SimplesAppend(v, w);
      BesideLonger(Simples(v), Simples(w));
    } else if v + w != [] {
      assert (v + w)[1..] == v[1..] + w;
      OutLonger(v[1..], w);
    }
  }

  lemma {:induction false} OutInside(q: Sequence, v: Sequence, w: Sequence)
    ensures OutOfTheWay(q + v, q + w) <==> OutOfTheWay(v, w)
  {
    CombinatorIn(q, v);
    if !HasCombinator(q + v) {
      SimplesAppend(q, v);
      SimplesAppend(q, w);
      BesideInside(Simples(q), Simples(v), Simples(w));
    } else if q == [] {
      assert q + v == v && q + w == w;
    } else {
      assert (q + v)[1..] == q[1..] + v && (q + w)[1..] == q[1..] + w;
      OutInside(q[1..], v, w);
    }
  }

  // ---- The ways in which places come together ---------------------------------------------------

  /** By a pass alone, which compares starts of one kind; or by both passes, for selectors that
      spell the compounds of one key alike. */
  datatype Way = OnePass | BothPasses(spelling: map<Key, Member>)

  function Spell(spelling: map<Key, Member>, t: Token): Member {
    match t
    case ByKey(k) => if k in spelling then spelling[k] else NEWLINE
    case ByMember(m) => m
  }

  function SpellAll(spelling: map<Key, Member>, path: seq<Token>): (r: Sequence)
    ensures |r| == |path|
  {
    seq(|path|, i requires 0 <= i < |path| => Spell(spelling, path[i]))
  }

  // A place at w is not in the way of places at v.
  predicate Passes(way: Way, w: seq<Token>, v: seq<Token>) {
    match way
    case OnePass => w <= v || v <= w
    case BothPasses(spelling) => OutOfTheWay(SpellAll(spelling, v), SpellAll(spelling, w))
  }

  lemma SpellAppend(spelling: map<Key, Member>, a: seq<Token>, b: seq<Token>)
    ensures SpellAll(spelling, a + b) == SpellAll(spelling, a) + SpellAll(spelling, b)
  {
  }

  lemma PassesPrefix(way: Way, z: seq<Token>, w: seq<Token>, v: seq<Token>)
    requires Passes(way, w, v) && z <= w
    ensures Passes(way, z, v)
  {
    match way
    case OnePass => PrefixComparable(z, w, v);
    case BothPasses(spelling) =>
      assert w == z + w[|z|..];
      SpellAppend(spelling, z, w[|z|..]);
      OutPrefix(SpellAll(spelling, v), SpellAll(spelling, z), SpellAll(spelling, w));
  }

  lemma PassesNear(way: Way, v: seq<Token>, w: seq<Token>)
    requires Comparable(v, w)
    ensures Passes(way, w, v)
  {
    if way.BothPasses? {
      var longer := if v <= w then w else v;
      assert longer == v + longer[|v|..];
      SpellAppend(way.spelling, v, longer[|v|..]);
      OutLonger(SpellAll(way.spelling, v), SpellAll(way.spelling, longer[|v|..]));
      PassesPrefix(way, w, longer, v);
    }
  }

  lemma PassesInside(way: Way, path: seq<Token>, w: seq<Token>, v: seq<Token>)
    ensures Passes(way, path + w, path + v) <==> Passes(way, w, v)
  {
    match way
    case OnePass =>
      PrefixInside(path, w, v);
      PrefixInside(path, v, w);
    case BothPasses(spelling) =>
      SpellAppend(spelling, path, w);
      SpellAppend(spelling, path, v);
      OutInside(SpellAll(spelling, path), SpellAll(spelling, v), SpellAll(spelling, w));
  }

  lemma PrefixComparable(u: seq<Token>, v: seq<Token>, w: seq<Token>)
    requires u <= v && Comparable(v, w)
    ensures Comparable(u, w)
  {
    if w <= v {
      assert u == v[..|u|] && w == v[..|w|];
      if |u| <= |w| {
        assert u == w[..|u|];
      } else {
        assert w == u[..|w|];
      }
    }
  }

  lemma PrefixInside(path: seq<Token>, u: seq<Token>, w: seq<Token>)
    ensures path + u <= path + w <==> u <= w
  {
    if path + u <= path + w {
      assert (path + u)[|path|..] == u && (path + w)[|path|..][..|u|] == w[..|u|];
      assert (path + w)[..|path + u|] == path + u;
      assert (path + w)[|path|..|path + u|] == u;
    }
  }
}
