// Selectors as css.rb sees them: sequences of compounds and combinators, the
// equality the library puts on compounds, and the resolution of nested selectors.
module Selectors {
  datatype Option<+T> = None | Some(value: T)

  // One simple selector. Its class and its text decide equality.
  datatype Simple =
    | Element(text: string)
    | Universal(text: string)
    | PseudoElement(text: string)
    | Other(text: string)
    | Parent

  // A member of a sequence: an unseparated run of simple selectors, or a string,
  // which is a combinator such as ">" or a line break.
  datatype Member = Compound(simples: seq<Simple>) | Op(text: string)

  type Sequence = seq<Member>

  const NEWLINE: Member := Op("\n")

  // What SimpleSequence compares: the base selector, the pseudo-elements in order,
  // and the *set* of the rest. Strings compare as strings.
  datatype Key =
    | CompoundKey(base: Option<Simple>, pseudoElements: seq<Simple>, rest: set<Simple>)
    | OpKey(text: string)

  function Base(simples: seq<Simple>): Option<Simple> {
    if simples != [] && (simples[0].Element? || simples[0].Universal?) then Some(simples[0]) else None
  }

  function PseudoElements(simples: seq<Simple>): seq<Simple> {
    if simples == [] then []
    else (if simples[0].PseudoElement? then [simples[0]] else []) + PseudoElements(simples[1..])
  }

  function Rest(base: Option<Simple>, simples: seq<Simple>): set<Simple> {
    set s | s in simples && !s.PseudoElement? && Some(s) != base
  }

  function KeyOf(m: Member): Key {
    match m
    case Compound(ss) => CompoundKey(Base(ss), PseudoElements(ss), Rest(Base(ss), ss))
    case Op(t) => OpKey(t)
  }

  // The library's == on sequence members.
  predicate Same(a: Member, b: Member) {
    KeyOf(a) == KeyOf(b)
  }

  /** Compounds are the same when they have the same simple selectors in any order and any number, but
      for a leading element, which has to be the same, and for the pseudo-elements, whose order counts. */
  lemma SameIff(a: seq<Simple>, b: seq<Simple>)
    ensures Same(Compound(a), Compound(b)) <==>
      Base(a) == Base(b) && PseudoElements(a) == PseudoElements(b) && forall s :: s in a <==> s in b
  {
    PseudoElementsIn(a);
    PseudoElementsIn(b);
    if Same(Compound(a), Compound(b)) {
      forall s ensures s in a <==> s in b {
        assert s in Rest(Base(a), a) <==> s in Rest(Base(b), b);
      }
    }
  }

  lemma {:induction false} PseudoElementsIn(a: seq<Simple>)
    ensures forall s :: s in PseudoElements(a) <==> s in a && s.PseudoElement?
  {
    if a != [] {
      PseudoElementsIn(a[1..]);
    }
  }

  function Keys(s: Sequence): (r: seq<Key>)
    ensures |r| == |s|
  {
    seq(|s|, i requires 0 <= i < |s| => KeyOf(s[i]))
  }

  // Line breaks in a sequence only affect formatting.
  function Clean(s: Sequence): (r: Sequence)
    ensures NEWLINE !in r
    ensures forall m :: m in r <==> m in s && m != NEWLINE
    ensures |r| <= |s|
    ensures NEWLINE !in s ==> r == s
  {
    if s == [] then []
    else if s[0] == NEWLINE then Clean(s[1..])
    else [s[0]] + Clean(s[1..])
  }

  // Does the member start with "&"?
  predicate ParentLed(m: Member) {
    m.Compound? && m.simples != [] && m.simples[0] == Parent
  }

  // The key of a compound to which more simple selectors were appended.
  function Extend(k: Key, more: seq<Simple>): Key
    requires k.CompoundKey?
  {
    CompoundKey(k.base, k.pseudoElements + PseudoElements(more), k.rest + Rest(k.base, more))
  }

  /** The selector that a rule selects with, given the one its parent selects with:
      a leading "&" continues the parent's last compound, anything else is a
      descendant of the parent. An "&" with nothing to refer to stays as it is. */
  function Resolve(parent: seq<Key>, s: Sequence): seq<Key> {
    if s != [] && ParentLed(s[0]) && parent != [] && parent[|parent| - 1].CompoundKey? then
      parent[..|parent| - 1] + [Extend(parent[|parent| - 1], s[0].simples[1..])] + Keys(s[1..])
    else
      parent + Keys(s)
  }

  lemma PseudoElementsCons(a: seq<Simple>)
    requires a != []
    ensures PseudoElements(a) == PseudoElements([a[0]]) + PseudoElements(a[1..])
  {
    assert [a[0]][1..] == [];
  }

  lemma {:induction false} PseudoElementsAppend(a: seq<Simple>, b: seq<Simple>)
    ensures PseudoElements(a + b) == PseudoElements(a) + PseudoElements(b)
  {
    if a == [] {
      assert a + b == b;
    } else {
      PseudoElementsAppend(a[1..], b);
      assert (a + b)[1..] == a[1..] + b && (a + b)[0] == a[0];
      var first := PseudoElements([a[0]]);
      assert [a[0]][1..] == [];
      PseudoElementsCons(a);
      PseudoElementsCons(a + b);
      hide PseudoElements;
      Assoc(first, PseudoElements(a[1..]), PseudoElements(b));
    }
  }

  // Appending to a compound extends its key.
  lemma KeyOfAppend(a: seq<Simple>, b: seq<Simple>)
    requires a != []
    ensures KeyOf(Compound(a + b)) == Extend(KeyOf(Compound(a)), b)
  {
    PseudoElementsAppend(a, b);
    assert Base(a + b) == Base(a);
    assert Rest(Base(a), a + b) == Rest(Base(a), a) + Rest(Base(a), b);
  }

  lemma ExtendTwice(k: Key, a: seq<Simple>, b: seq<Simple>)
    requires k.CompoundKey?
    ensures Extend(Extend(k, a), b) == Extend(k, a + b)
  {
    PseudoElementsAppend(a, b);
    assert Rest(k.base, a + b) == Rest(k.base, a) + Rest(k.base, b);
    assert k.rest + Rest(k.base, a) + Rest(k.base, b) == k.rest + (Rest(k.base, a) + Rest(k.base, b));
  }

  // Only the keys of a selector count, unless it starts with "&".
  lemma ResolveSameHead(parent: seq<Key>, a: Member, b: Member)
    requires Same(a, b) && !ParentLed(a) && !ParentLed(b)
    ensures Resolve(parent, [a]) == Resolve(parent, [b])
  {
    assert Keys([a]) == Keys([b]);
  }

  lemma ResolveInjective(parent: seq<Key>, s: Sequence, t: Sequence)
    requires s != [] && t != [] && !ParentLed(s[0]) && !ParentLed(t[0])
    requires Resolve(parent, s) == Resolve(parent, t)
    ensures Keys(s) == Keys(t)
  {
    assert Keys(s) == (parent + Keys(s))[|parent|..];
    assert Keys(t) == (parent + Keys(t))[|parent|..];
  }

  // Nesting the tail of a sequence under its head selects the same.
  lemma ResolveSplit(parent: seq<Key>, head: Member, rest: Sequence)
    requires rest != [] && !ParentLed(rest[0]) && !ParentLed(head)
    ensures Resolve(Resolve(parent, [head]), rest) == Resolve(parent, [head] + rest)
  {
    assert ([head] + rest)[0] == head;
    assert Keys([head] + rest) == Keys([head]) + Keys(rest);
    assert (parent + Keys([head])) + Keys(rest) == parent + (Keys([head]) + Keys(rest));
  }

  /** What flattening puts in place of a rule and its only child. */
  function Join(rule: Sequence, child: Sequence): Sequence
    requires child != [] && ParentLed(child[0]) ==> rule != [] && rule[|rule| - 1].Compound?
  {
    if child != [] && ParentLed(child[0]) then
      rule[..|rule| - 1] + [Compound(rule[|rule| - 1].simples + child[0].simples[1..])] + child[1..]
    else
      rule + child
  }

  // What follows the first member is appended as it is.
  lemma ResolveAppend(parent: seq<Key>, s: Sequence, t: Sequence)
    requires s != []
    ensures Resolve(parent, s + t) == Resolve(parent, s) + Keys(t)
  {
    assert (s + t)[0] == s[0];
    assert (s + t)[1..] == s[1..] + t;
    KeysAppend(s[1..], t);
    KeysAppend(s, t);
    hide Keys, KeyOf, Extend;
    var last := parent[..if parent == [] then 0 else |parent| - 1];
    if ParentLed(s[0]) && parent != [] && parent[|parent| - 1].CompoundKey? {
      Assoc(last + [Extend(parent[|parent| - 1], s[0].simples[1..])], Keys(s[1..]), Keys(t));
    } else {
      Assoc(parent, Keys(s), Keys(t));
    }
  }

  lemma Assoc<T>(a: seq<T>, b: seq<T>, c: seq<T>)
    ensures a + (b + c) == a + b + c
  {
  }

  lemma KeysAppend(s: Sequence, t: Sequence)
    ensures Keys(s + t) == Keys(s) + Keys(t)
  {
  }

  // Appending to the last compound of a sequence extends the last key it selects with.
  lemma ResolveExtendLast(parent: seq<Key>, init: Sequence, last: seq<Simple>, more: seq<Simple>)
    requires last != []
    ensures
      var p := Resolve(parent, init + [Compound(last)]);
      p != [] && p[|p| - 1].CompoundKey? &&
      Resolve(parent, init + [Compound(last + more)]) == p[..|p| - 1] + [Extend(p[|p| - 1], more)]
  {
    KeyOfAppend(last, more);
    var a, b := Compound(last), Compound(last + more);
    if init != [] {
      ResolveAppend(parent, init, [a]);
      ResolveAppend(parent, init, [b]);
      assert Keys([a]) == [KeyOf(a)] && Keys([b]) == [KeyOf(b)];
    } else {
      assert init + [a] == [a] && init + [b] == [b];
      assert [a][1..] == [] && [b][1..] == [] && Keys([]) == [];
      assert Keys([a]) == [KeyOf(a)] && Keys([b]) == [KeyOf(b)];
      assert ParentLed(a) <==> ParentLed(b);
      if ParentLed(a) && parent != [] && parent[|parent| - 1].CompoundKey? {
        assert b.simples[1..] == last[1..] + more;
        ExtendTwice(parent[|parent| - 1], last[1..], more);
      }
    }
  }

  // Resolution is associative: flattening selects the same.
  lemma ResolveJoin(parent: seq<Key>, rule: Sequence, child: Sequence)
    requires rule != [] && child != []
    requires ParentLed(child[0]) ==> rule[|rule| - 1].Compound? && rule[|rule| - 1].simples != []
    ensures Resolve(parent, Join(rule, child)) == Resolve(Resolve(parent, rule), child)
  {
    if ParentLed(child[0]) {
      JoinLed(parent, rule, child);
    } else {
      ResolveAppend(parent, rule, child);
    }
  }

  lemma JoinLed(parent: seq<Key>, rule: Sequence, child: Sequence)
    requires rule != [] && child != [] && ParentLed(child[0])
    requires rule[|rule| - 1].Compound? && rule[|rule| - 1].simples != []
    ensures Resolve(parent, Join(rule, child)) == Resolve(Resolve(parent, rule), child)
  {
    var init, last, more := rule[..|rule| - 1], rule[|rule| - 1].simples, child[0].simples[1..];
    assert rule == init + [Compound(last)];
    ResolveExtendLast(parent, init, last, more);
    ResolveLed(Resolve(parent, rule), child);
    hide KeyOf, Extend, Keys, Resolve;
    ResolveAppend(parent, init + [Compound(last + more)], child[1..]);
  }

  lemma ResolveLed(p: seq<Key>, child: Sequence)
    requires p != [] && p[|p| - 1].CompoundKey? && child != [] && ParentLed(child[0])
    ensures Resolve(p, child) == p[..|p| - 1] + [Extend(p[|p| - 1], child[0].simples[1..])] + Keys(child[1..])
  {
  }
}
