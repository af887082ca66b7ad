// The items of a dict that keeps its keys in order, and what the operations do to them.
module OrderedItems {
  datatype Option<+T> = None | Some(value: T)

  ghost predicate Distinct<K, V>(items: seq<(K, V)>) {
    forall i, j :: 0 <= i < j < |items| ==> items[i].0 != items[j].0
  }

  // Where the key stands; at the end of the items when it is not there.
  function Position<K(==), V>(items: seq<(K, V)>, key: K): (p: nat)
    ensures p <= |items| && (p < |items| ==> items[p].0 == key)
    ensures forall i :: 0 <= i < p ==> items[i].0 != key
  {
    if items == [] || items[0].0 == key then 0 else 1 + Position(items[1..], key)
  }

  predicate Has<K(==), V>(items: seq<(K, V)>, key: K) {
    Position(items, key) < |items|
  }

  // A new key comes last, an old one stays where it is.
  function Put<K(==), V>(items: seq<(K, V)>, key: K, value: V): seq<(K, V)> {
    var p := Position(items, key);
    if p < |items| then items[p := (key, value)] else items + [(key, value)]
  }

  function Without<K(==), V>(items: seq<(K, V)>, key: K): seq<(K, V)> {
    var p := Position(items, key);
    if p < |items| then items[..p] + items[p + 1..] else items
  }

  function ItemsOf<K, V>(order: seq<K>, dict: map<K, V>): (r: seq<(K, V)>)
    requires forall k :: k in order ==> k in dict
    ensures |r| == |order|
  {
    seq(|order|, i requires 0 <= i < |order| => (order[i], dict[order[i]]))
  }

  // The items are those of another dict exactly when the dicts are equal.
  lemma ItemsOfDict<K, V>(order: seq<K>, dict: map<K, V>, other: map<K, V>)
    requires dict.Keys == (set k | k in order) && |dict| == |order|
    ensures
      var items := ItemsOf(order, dict);
      dict == other <==>
        |items| == |other| && forall i :: 0 <= i < |items| ==> items[i].0 in other && other[items[i].0] == items[i].1
  {
    var items := ItemsOf(order, dict);
    if |items| == |other| && forall i :: 0 <= i < |items| ==> items[i].0 in other && other[items[i].0] == items[i].1 {
      forall k | k in dict ensures k in other && other[k] == dict[k] {
        var i :| 0 <= i < |order| && order[i] == k;
        assert items[i] == (k, dict[k]);
      }
      assert dict.Keys <= other.Keys && |dict.Keys| == |other.Keys|;
      SameSizeSets(dict.Keys, other.Keys);
    }
  }

  lemma SameSizeSets<K>(a: set<K>, b: set<K>)
    requires a <= b && |a| == |b|
    ensures a == b
  {
    assert b == a + (b - a);
    assert |b - a| == 0;
  }

  lemma ItemsPut<K, V>(order: seq<K>, dict: map<K, V>, key: K, value: V)
    requires forall i, j :: 0 <= i < j < |order| ==> order[i] != order[j]
    requires dict.Keys == set k | k in order
    ensures
      var items := Put(ItemsOf(order, dict), key, value);
      items == ItemsOf(if key in dict then order else order + [key], dict[key := value])
  {
    var items, more := ItemsOf(order, dict), dict[key := value];
    if key in dict {
      var p :| 0 <= p < |order| && order[p] == key;
      PutOld(items, ItemsOf(order, more), key, value, p);
    } else {
      PutNew(items, ItemsOf(order + [key], more), key, value);
    }
  }

  lemma PutNew<K, V>(items: seq<(K, V)>, after: seq<(K, V)>, key: K, value: V)
    requires forall i :: 0 <= i < |items| ==> items[i].0 != key
    requires |after| == |items| + 1 && after[|items|] == (key, value)
    requires forall i :: 0 <= i < |items| ==> after[i] == items[i]
    ensures after == Put(items, key, value)
  {
  }

  lemma PutOld<K, V>(items: seq<(K, V)>, after: seq<(K, V)>, key: K, value: V, p: nat)
    requires p < |items| == |after| && items[p].0 == key
    requires forall i :: 0 <= i < p ==> items[i].0 != key
    requires forall i :: 0 <= i < |items| ==> after[i] == if i == p then (key, value) else items[i]
    ensures after == Put(items, key, value)
  {
    PositionIs(items, key, p);
  }

  // A list without the first place of an element.
  function Remove<K(==)>(order: seq<K>, key: K): seq<K> {
    if order == [] then []
    else if order[0] == key then order[1..]
    else [order[0]] + Remove(order[1..], key)
  }

  lemma RemoveIs<K>(order: seq<K>, key: K, p: nat)
    requires p < |order| && order[p] == key && forall i :: 0 <= i < p ==> order[i] != key
    ensures Remove(order, key) == order[..p] + order[p + 1..]
  {
    if p > 0 {
      RemoveIs(order[1..], key, p - 1);
    }
  }

  lemma ItemsWithout<K, V>(order: seq<K>, dict: map<K, V>, key: K)
    requires forall i, j :: 0 <= i < j < |order| ==> order[i] != order[j]
    requires dict.Keys == set k | k in order
    ensures Has(ItemsOf(order, dict), key) <==> key in dict
    ensures key !in dict ==> Without(ItemsOf(order, dict), key) == ItemsOf(order, dict)
    ensures
      var less := Remove(order, key);
      key in dict ==>
        dict.Keys - {key} == (set k | k in less) && Without(ItemsOf(order, dict), key) == ItemsOf(less, dict - {key})
  {
    hide Remove, Position, Has;
    HasItems(order, dict, key);
    if key in dict {
      var p :| 0 <= p < |order| && order[p] == key;
      RemoveIs(order, key, p);
      PositionIs(ItemsOf(order, dict), key, p);
      KeysWithout(order, key, p);
      ItemsOfLess(order, dict, key, p);
    }
  }

  lemma HasItems<K, V>(order: seq<K>, dict: map<K, V>, key: K)
    requires dict.Keys == set k | k in order
    ensures Has(ItemsOf(order, dict), key) <==> key in dict
  {
    HasIs(ItemsOf(order, dict), key);
    if key in dict {
      var p :| 0 <= p < |order| && order[p] == key;
      assert ItemsOf(order, dict)[p].0 == key;
    }
  }

  lemma ItemsOfLess<K, V>(order: seq<K>, dict: map<K, V>, key: K, p: nat)
    requires forall i, j :: 0 <= i < j < |order| ==> order[i] != order[j]
    requires forall k :: k in order ==> k in dict
    requires p < |order| && order[p] == key
    ensures forall k :: k in order[..p] + order[p + 1..] ==> k in dict - {key}
    ensures ItemsOf(order, dict)[..p] + ItemsOf(order, dict)[p + 1..] == ItemsOf(order[..p] + order[p + 1..], dict - {key})
  {
  }

  lemma KeysWithout<K>(order: seq<K>, key: K, p: nat)
    requires forall i, j :: 0 <= i < j < |order| ==> order[i] != order[j]
    requires p < |order| && order[p] == key
    ensures
      var less := order[..p] + order[p + 1..];
      (set k | k in order) - {key} == set k | k in less
  {
    assert order == order[..p] + [key] + order[p + 1..];
  }

  lemma PositionIs<K, V>(items: seq<(K, V)>, key: K, p: nat)
    requires p < |items| && items[p].0 == key
    requires forall i :: 0 <= i < p ==> items[i].0 != key
    ensures Position(items, key) == p
  {
  }

  lemma KeyCount<K>(order: seq<K>)
    requires forall i, j :: 0 <= i < j < |order| ==> order[i] != order[j]
    ensures |set k | k in order| == |order|
  {
    if order != [] {
      var front := order[..|order| - 1];
      KeyCount(front);
      assert (set k | k in order) == (set k | k in front) + {order[|order| - 1]};
    }
  }

  function KeysOf<K, V>(items: seq<(K, V)>): (r: seq<K>)
    ensures |r| == |items|
  {
    seq(|items|, i requires 0 <= i < |items| => items[i].0)
  }

  function Backwards<K>(keys: seq<K>): (r: seq<K>)
    ensures |r| == |keys|
    ensures forall i :: 0 <= i < |r| ==> r[i] == keys[|keys| - 1 - i]
  {
    seq(|keys|, i requires 0 <= i < |keys| => keys[|keys| - 1 - i])
  }

  lemma ItemsEqual<K, V>(a: seq<(K, V)>, b: seq<(K, V)>, n: nat)
    requires n <= |a| == |b|
    requires forall k :: 0 <= k < n ==> a[k] == b[k]
    ensures n == |a| ==> a == b
    ensures n < |a| && (a[n].0 != b[n].0 || a[n].1 != b[n].1) ==> a != b
  {
  }

  // ---- Runs ------------------------------------------------------------------------------------

  datatype Operation<K, V> = Set(key: K, value: V) | Delete(key: K) | Clear | Pop(last: bool)

  function Popped<K, V>(items: seq<(K, V)>, last: bool): Option<(K, V)> {
    if items == [] then None else Some(items[if last then |items| - 1 else 0])
  }

  function Apply<K(==), V>(items: seq<(K, V)>, op: Operation<K, V>): seq<(K, V)> {
    match op
    case Set(key, value) => Put(items, key, value)
    case Delete(key) => Without(items, key)
    case Clear => []
    case Pop(last) =>
      if items == [] then [] else if last then items[..|items| - 1] else items[1..]
  }

  function After<K(==), V>(ops: seq<Operation<K, V>>): seq<(K, V)> {
    if ops == [] then [] else Apply(After(ops[..|ops| - 1]), ops[|ops| - 1])
  }

  lemma PopWithout<K, V>(items: seq<(K, V)>, last: bool)
    requires Distinct(items) && items != []
    ensures Without(items, Popped(items, last).value.0) == Apply(items, Pop(last))
  {
    PositionIs(items, Popped(items, last).value.0, if last then |items| - 1 else 0);
  }

  // The operation that brought the key in, for good so far.
  function Added<K(==), V>(ops: seq<Operation<K, V>>, key: K): (n: nat)
    requires ops != []
    ensures n < |ops|
  {
    var before := ops[..|ops| - 1];
    if Has(After(before), key) && before != [] then Added(before, key) else |ops| - 1
  }

  // The value it was given last.
  function LastValue<K(==), V>(ops: seq<Operation<K, V>>, key: K): Option<V> {
    if ops == [] then None
    else
      var op := ops[|ops| - 1];
      if op.Set? && op.key == key then Some(op.value) else LastValue(ops[..|ops| - 1], key)
  }

  // The items of a run: each key once, in the order of their coming in, with its last value.
  ghost predicate InOrder<K, V>(ops: seq<Operation<K, V>>, items: seq<(K, V)>) {
    (forall i :: 0 <= i < |items| ==> ops != [] && LastValue(ops, items[i].0) == Some(items[i].1)) &&
    (forall i, j :: 0 <= i < j < |items| ==> ops != [] && Added(ops, items[i].0) < Added(ops, items[j].0))
  }

  /** After any run the items are in the order in which their keys came in, and each has
      the value that it was given last: a new value does not move an item, and a key that
      comes back after a deletion goes to the end. */
  lemma {:induction false} RunInOrder<K, V>(ops: seq<Operation<K, V>>)
    ensures Distinct(After(ops)) && InOrder(ops, After(ops))
  {
    if ops != [] {
      var before := ops[..|ops| - 1];
      RunInOrder(before);
      StepInOrder(ops, After(before));
    }
  }

  lemma HasIs<K, V>(items: seq<(K, V)>, key: K)
    ensures Has(items, key) <==> exists i :: 0 <= i < |items| && items[i].0 == key
  {
  }

  // What an operation leaves alone: the keys keep their time and the values.
  lemma KeyStays<K, V>(ops: seq<Operation<K, V>>, items: seq<(K, V)>, i: nat)
    requires ops != [] && items == After(ops[..|ops| - 1]) && i < |items|
    requires InOrder(ops[..|ops| - 1], items)
    ensures Added(ops, items[i].0) < |ops| - 1 && Added(ops, items[i].0) == Added(ops[..|ops| - 1], items[i].0)
    ensures !(ops[|ops| - 1].Set? && ops[|ops| - 1].key == items[i].0) ==>
      LastValue(ops, items[i].0) == Some(items[i].1)
  {
    HasIs(items, items[i].0);
  }

  lemma LessInOrder<K, V>(ops: seq<Operation<K, V>>, items: seq<(K, V)>, less: seq<(K, V)>, p: nat)
    requires ops != [] && items == After(ops[..|ops| - 1]) && !ops[|ops| - 1].Set?
    requires Distinct(items) && InOrder(ops[..|ops| - 1], items)
    requires less == items || (p < |items| && less == items[..p] + items[p + 1..])
    ensures Distinct(less) && InOrder(ops, less)
  {
    hide Added, LastValue, After;
    forall i | 0 <= i < |items|
      ensures Added(ops, items[i].0) == Added(ops[..|ops| - 1], items[i].0) && LastValue(ops, items[i].0) == Some(items[i].1)
    {
      KeyStays(ops, items, i);
    }
  }

  lemma PutInOrder<K, V>(ops: seq<Operation<K, V>>, items: seq<(K, V)>, key: K, value: V)
    requires ops != [] && items == After(ops[..|ops| - 1]) && ops[|ops| - 1] == Set(key, value)
    requires Distinct(items) && InOrder(ops[..|ops| - 1], items)
    ensures Distinct(Put(items, key, value)) && InOrder(ops, Put(items, key, value))
  {
    assert LastValue(ops, key) == Some(value);
    hide LastValue, After;
    if !Has(items, key) {
      assert Added(ops, key) == |ops| - 1;
      NewInOrder(ops, items, key, value);
    } else {
      OldInOrder(ops, items, key, value, Position(items, key));
    }
  }

  lemma NewInOrder<K, V>(ops: seq<Operation<K, V>>, items: seq<(K, V)>, key: K, value: V)
    requires ops != [] && items == After(ops[..|ops| - 1]) && ops[|ops| - 1] == Set(key, value)
    requires Distinct(items) && InOrder(ops[..|ops| - 1], items) && !Has(items, key)
    requires LastValue(ops, key) == Some(value) && Added(ops, key) == |ops| - 1
    ensures Distinct(items + [(key, value)]) && InOrder(ops, items + [(key, value)])
  {
    hide Added, LastValue, After;
    HasIs(items, key);
    forall i | 0 <= i < |items|
      ensures
        Added(ops, items[i].0) == Added(ops[..|ops| - 1], items[i].0) < |ops| - 1 &&
        LastValue(ops, items[i].0) == Some(items[i].1)
    {
      KeyStays(ops, items, i);
    }
  }

  lemma OldInOrder<K, V>(ops: seq<Operation<K, V>>, items: seq<(K, V)>, key: K, value: V, p: nat)
    requires ops != [] && items == After(ops[..|ops| - 1]) && ops[|ops| - 1] == Set(key, value)
    requires Distinct(items) && InOrder(ops[..|ops| - 1], items) && LastValue(ops, key) == Some(value)
    requires p < |items| && items[p].0 == key
    ensures Distinct(items[p := (key, value)]) && InOrder(ops, items[p := (key, value)])
  {
    hide Added, LastValue, After;
    forall i | 0 <= i < |items|
      ensures Added(ops, items[i].0) == Added(ops[..|ops| - 1], items[i].0)
      ensures i != p ==> LastValue(ops, items[i].0) == Some(items[i].1)
    {
      KeyStays(ops, items, i);
    }
  }

  lemma NothingInOrder<K, V>(ops: seq<Operation<K, V>>)
    ensures Distinct<K, V>([]) && InOrder(ops, [])
  {
  }

  lemma StepInOrder<K, V>(ops: seq<Operation<K, V>>, items: seq<(K, V)>)
    requires ops != [] && items == After(ops[..|ops| - 1])
    requires Distinct(items) && InOrder(ops[..|ops| - 1], items)
    ensures Distinct(After(ops)) && InOrder(ops, After(ops))
  {
    var after := Apply(items, ops[|ops| - 1]);
    assert after == After(ops);
    hide After, Added, LastValue, InOrder, Distinct;
    match ops[|ops| - 1]
    case Set(key, value) => PutInOrder(ops, items, key, value);
    case Delete(key) => LessInOrder(ops, items, after, Position(items, key));
    case Clear => NothingInOrder(ops);
    case Pop(last) => LessInOrder(ops, items, after, if last && items != [] then |items| - 1 else 0);
  }
}
