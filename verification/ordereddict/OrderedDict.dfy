// simplejson's OrderedDict: a dict, a ring of cells in the order of the keys, and an index
// from the keys into the ring.
module OrderedDict {
  import opened OrderedItems

  // A list of three in the source: key, previous cell, next cell. The end of the ring has
  // no key.
  class Cell<K> {
    const key: Option<K>
    var prev: Cell?<K>
    var next: Cell?<K>

    constructor (key: Option<K>)
      ensures this.key == key
    {
      this.key := key;
    }
  }

  // Each cell knows its neighbours, round from the end to the end.
  ghost predicate Ring<K>(end: Cell<K>, ring: seq<Cell<K>>)
    reads ring
  {
    |ring| >= 2 && ring[0] == end && ring[|ring| - 1] == end &&
    (forall i, j :: 0 <= i < j < |ring| - 1 ==> ring[i] != ring[j]) &&
    (forall i, j :: 0 <= i < |ring| - 1 && j == i + 1 ==> ring[i].next == ring[j] && ring[j].prev == ring[i])
  }

  // The cells hold the keys, and the index leads to them.
  ghost predicate Indexed<K>(order: seq<K>, ring: seq<Cell<K>>, index: map<K, Cell<K>>) {
    |ring| == |order| + 2 &&
    (forall i :: 0 <= i < |order| ==> ring[i + 1].key == Some(order[i]) && order[i] in index && index[order[i]] == ring[i + 1]) &&
    (forall k :: k in index ==> k in order)
  }

  lemma IndexedAppend<K>(order: seq<K>, ring: seq<Cell<K>>, index: map<K, Cell<K>>, key: K, cell: Cell<K>, end: Cell<K>)
    requires Indexed(order, ring, index) && cell.key == Some(key) && key !in index
    ensures Indexed(order + [key], ring[..|ring| - 1] + [cell, end], index[key := cell])
  {
  }

  // Where the index finds the key.
  lemma IndexOf<K>(order: seq<K>, ring: seq<Cell<K>>, index: map<K, Cell<K>>, key: K) returns (p: nat)
    requires Indexed(order, ring, index) && key in index
    requires forall i, j :: 0 <= i < j < |order| ==> order[i] != order[j]
    ensures p < |order| && order[p] == key && |ring| == |order| + 2 && ring[p + 1] == index[key]
    ensures Remove(order, key) == order[..p] + order[p + 1..]
  {
    p :| 0 <= p < |order| && order[p] == key;
    RemoveIs(order, key, p);
  }

  lemma IndexedRemove<K>(order: seq<K>, ring: seq<Cell<K>>, index: map<K, Cell<K>>, key: K, p: nat)
    requires Indexed(order, ring, index) && p < |order| && order[p] == key
    requires forall i, j :: 0 <= i < j < |order| ==> order[i] != order[j]
    ensures Indexed(order[..p] + order[p + 1..], ring[..p + 1] + ring[p + 2..], index - {key})
  {
    var less, short := order[..p] + order[p + 1..], ring[..p + 1] + ring[p + 2..];
    forall i | 0 <= i < |less|
      ensures short[i + 1].key == Some(less[i]) && less[i] in index - {key} && index[less[i]] == short[i + 1]
    {
      var a := if i < p then i else i + 1;
      assert less[i] == order[a] && short[i + 1] == ring[a + 1];
    }
    forall k | k in index - {key} ensures k in less {
      var a :| 0 <= a < |order| && order[a] == k;
      assert less[if a < p then a else a - 1] == k;
    }
  }

  class OrderedDict<K(==), V(==)> {
    var end: Cell<K>
    var index: map<K, Cell<K>>
    var dict: map<K, V>

    // The keys in order, and the cells from the end round to the end.
    ghost var order: seq<K>
    ghost var ring: seq<Cell<K>>

    ghost predicate Valid()
      reads this, ring
    {
      Ring(end, ring) && Indexed(order, ring, index) &&
      index.Keys == dict.Keys
    }

    // What the dict stands for: its items in order.
    ghost function Items(): (r: seq<(K, V)>)
      requires Valid()
      reads this, ring
    {
      ItemsOf(order, dict)
    }

    constructor ()
      ensures Valid() && fresh(ring) && Items() == []
    {
      var e := new Cell<K>(None);
      end := e;
      index := map[];
      dict := map[];
      order := [];
      ring := [e, e];
      new;
      end.prev := end;
      end.next := end;
    }

    method Clear()
      requires Valid()
      modifies this
      ensures Valid() && fresh(ring) && Items() == []
    {
      var e := new Cell<K>(None);
      e.prev := e;
      e.next := e;
      end := e;
      index := map[];
      dict := map[];
      order := [];
      ring := [e, e];
    }

    lemma OrderIsKeys()
      requires Valid()
      ensures forall i, j :: 0 <= i < j < |order| ==> order[i] != order[j]
      ensures dict.Keys == set k | k in order
    {
      forall i, j | 0 <= i < j < |order| ensures order[i] != order[j] {
        assert ring[i + 1] != ring[j + 1];
      }
    }

    // The new cell goes between the last one and the end.
    method AppendCell(key: K)
      requires Ring(end, ring) && Indexed(order, ring, index) && key !in index
      modifies this`index, this`ring, this`order, ring
      ensures Ring(end, ring) && Indexed(order, ring, index)
      ensures forall c :: c in ring ==> c in old(ring) || fresh(c)
      ensures order == old(order) + [key] && index.Keys == old(index.Keys) + {key}
    {
      hide Ring, Indexed;
      var cell := new Cell(Some(key));
      IndexedAppend(order, ring, index, key, cell, end);
      Link(cell);
      index := index[key := cell];
      ring := ring[..|ring| - 1] + [cell, end];
      order := order + [key];
    }

    method Link(cell: Cell<K>)
      requires Ring(end, ring) && cell !in ring
      modifies cell, ring
      ensures |ring| > 1 && end in ring && Ring(end, ring[..|ring| - 1] + [cell, end])
    {
      assert end.prev == ring[|ring| - 2];
      var curr := end.prev;
      cell.prev := curr;
      cell.next := end;
      end.prev := cell;
      curr.next := cell;
    }

    method SetItem(key: K, value: V)
      requires Valid()
      modifies this, ring
      ensures Valid() && forall c :: c in ring ==> c in old(ring) || fresh(c)
      ensures Items() == Put(old(Items()), key, value)
    {
      hide Ring, Put, ItemsOf;
      OrderIsKeys();
      ItemsPut(order, dict, key, value);
      if key !in dict {
        AppendCell(key);
      }
      dict := dict[key := value];
    }

    /** Deletes the key; there is no such key when it says so, and then nothing changes. */
    method DelItem(key: K) returns (found: bool)
      requires Valid()
      modifies this, ring
      ensures Valid() && forall c :: c in ring ==> c in old(ring)
      ensures found == Has(old(Items()), key)
      ensures Items() == Without(old(Items()), key)
    {
      hide Ring, Without, ItemsOf, Has, Remove, Indexed;
      OrderIsKeys();
      ItemsWithout(order, dict, key);
      if key !in dict {
        return false;
      }
      dict := dict - {key};
      RemoveCell(key);
      found := true;
    }

    method RemoveCell(key: K)
      requires Ring(end, ring) && Indexed(order, ring, index) && key in index
      requires forall i, j :: 0 <= i < j < |order| ==> order[i] != order[j]
      modifies this`index, this`ring, this`order, ring
      ensures Ring(end, ring) && Indexed(order, ring, index)
      ensures forall c :: c in ring ==> c in old(ring)
      ensures order == Remove(old(order), key) && index.Keys == old(index.Keys) - {key}
    {
      hide Ring, Indexed, Remove;
      ghost var p := IndexOf(order, ring, index, key);
      IndexedRemove(order, ring, index, key, p);
      Unlink(index[key], p + 1);
      index := index - {key};
      ring := ring[..p + 1] + ring[p + 2..];
      order := order[..p] + order[p + 1..];
    }

    // The cells on both sides of the removed one take each other for neighbours.
    method Unlink(cell: Cell<K>, ghost p: nat)
      requires Ring(end, ring) && 0 < p < |ring| - 1 && ring[p] == cell
      modifies ring
      ensures Ring(end, ring[..p] + ring[p + 1..])
    {
      var prev, next := cell.prev, cell.next;
      assert prev == ring[p - 1] && next == ring[p + 1];
      prev.next := next;
      next.prev := prev;
    }

    /** The keys as iteration meets them, from the end of the ring onwards. */
    method Iter() returns (keys: seq<K>)
      requires Valid()
      ensures keys == KeysOf(Items())
    {
      keys := [];
      var curr := end.next;
      while curr != end
        invariant |keys| <= |order| && keys == order[..|keys|] && curr == ring[|keys| + 1]
        decreases |order| - |keys|
      {
        ghost var i := |keys|;
        assert ring[i + 1].key == Some(order[i]);
        keys := keys + [curr.key.value];
        curr := curr.next;
      }
    }

    /** The keys as reversed iteration meets them. */
    method Reversed() returns (keys: seq<K>)
      requires Valid()
      ensures keys == Backwards(KeysOf(Items()))
    {
      keys := [];
      var curr := end.prev;
      while curr != end
        invariant |keys| <= |order| && curr == ring[|order| - |keys|]
        invariant forall i :: 0 <= i < |keys| ==> keys[i] == order[|order| - 1 - i]
        decreases |order| - |keys|
      {
        ghost var i := |order| - 1 - |keys|;
        assert ring[i + 1].key == Some(order[i]);
        keys := keys + [curr.key.value];
        curr := curr.prev;
      }
    }

    /** Takes out the last item or the first one; None is the KeyError of an empty dict. */
    method PopItem(last: bool) returns (item: Option<(K, V)>)
      requires Valid()
      modifies this, ring
      ensures Valid() && forall c :: c in ring ==> c in old(ring)
      ensures item == Popped(old(Items()), last)
      ensures Items() == Apply(old(Items()), Pop(last))
    {
      hide Without;
      OrderIsKeys();
      if |dict| == 0 {
        EmptyDict();
        return None;
      }
      var keys: seq<K>;
      if last {
        keys := Reversed();
      } else {
        keys := Iter();
      }
      PopWithout(Items(), last);
      var key := keys[0];
      var value := dict[key];
      var _ := DelItem(key);
      item := Some((key, value));
    }

    lemma EmptyDict()
      requires Valid()
      ensures |dict| == 0 <==> order == []
    {
      OrderIsKeys();
      if order != [] {
        assert order[0] in dict;
      }
      if |dict| != 0 {
        var k :| k in dict;
      }
    }

    /** Comparison with another OrderedDict, which minds the order. */
    method Eq(other: OrderedDict<K, V>) returns (eq: bool)
      requires Valid() && other.Valid()
      ensures eq <==> Items() == other.Items()
    {
      hide Ring, Indexed;
      SizeIsLength();
      other.SizeIsLength();
      if |dict| != |other.dict| {
        return false;
      }
      var mine := Iter();
      var others := other.Iter();
      for i := 0 to |mine|
        invariant forall k :: 0 <= k < i ==> Items()[k] == other.Items()[k]
      {
        ItemsEqual(Items(), other.Items(), i);
        assert order[i] in order && other.order[i] in other.order;
        if mine[i] != others[i] || dict[mine[i]] != other.dict[others[i]] {
          return false;
        }
      }
      ItemsEqual(Items(), other.Items(), |mine|);
      eq := true;
    }

    /** Comparison with a plain dict, which does not. */
    method EqDict(other: map<K, V>) returns (eq: bool)
      requires Valid()
      ensures eq <==>
        |Items()| == |other| &&
        forall i :: 0 <= i < |Items()| ==> Items()[i].0 in other && other[Items()[i].0] == Items()[i].1
    {
      eq := dict == other;
      SizeIsLength();
      ItemsOfDict(order, dict, other);
    }

    lemma SizeIsLength()
      requires Valid()
      ensures |dict| == |order| && dict.Keys == set k | k in order
    {
      OrderIsKeys();
      KeyCount(order);
      assert dict.Keys == set k | k in order;
    }

    method Perform(op: Operation<K, V>)
      requires Valid()
      modifies this, ring
      ensures Valid() && forall c :: c in ring ==> c in old(ring) || fresh(c)
      ensures Items() == Apply(old(Items()), op)
    {
      match op
      case Set(key, value) => SetItem(key, value);
      case Delete(key) => var _ := DelItem(key);
      case Clear => Clear();
      case Pop(last) => var _ := PopItem(last);
    }
  }

  /** Any run of operations on a new dict does to it what it does to its items. */
  method RunOperations<K(==), V(==)>(ops: seq<Operation<K, V>>) returns (d: OrderedDict<K, V>)
    ensures d.Valid() && d.Items() == After(ops)
  {
    d := new OrderedDict();
    for n := 0 to |ops|
      invariant d.Valid() && fresh(d) && d.Items() == After(ops[..n])
      invariant forall i :: 0 <= i < |d.ring| ==> fresh(d.ring[i])
    {
      assert ops[..n + 1][..n] == ops[..n];
      d.Perform(ops[n]);
      forall i | 0 <= i < |d.ring| ensures fresh(d.ring[i]) {
        assert d.ring[i] in d.ring;
      }
    }
    assert ops[..|ops|] == ops;
  }
}
