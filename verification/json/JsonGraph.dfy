// Python's lists and dicts as objects that may be shared or contain each other, the tree
// such an object stands for, and when it stands for none.
module JsonGraph {
  import opened JsonText

  // A scalar, or a reference to a list or dict by its id().
  datatype Val = Scalar(v: Json) | Ref(id: nat)
  datatype Obj = ListObj(items: seq<Val>) | DictObj(pairs: seq<(Text, Val)>)

  type Heap = map<nat, Obj>

  predicate ValIn(h: Heap, v: Val) {
    match v
    case Scalar(j) => !j.List? && !j.Dict?
    case Ref(id) => id in h
  }

  ghost predicate Closed(h: Heap) {
    forall id, v :: id in h && v in Contents(h[id]) ==> ValIn(h, v)
  }

  function Contents(obj: Obj): seq<Val> {
    match obj
    case ListObj(items) => items
    case DictObj(pairs) => seq(|pairs|, k requires 0 <= k < |pairs| => pairs[k].1)
  }

  function Build(obj: Obj, values: seq<Json>): Json
    requires |values| == |Contents(obj)|
  {
    match obj
    case ListObj(_) => List(values)
    case DictObj(pairs) => Dict(seq(|pairs|, k requires 0 <= k < |pairs| => (pairs[k].0, values[k])))
  }

  /** The tree a value stands for, None where an object contains itself. `active` are the
      objects around it. */
  function Unfold(h: Heap, v: Val, active: set<nat>): Option<Json>
    requires Closed(h) && ValIn(h, v)
    decreases h.Keys - active, 0, 0
  {
    match v
    case Scalar(j) => Some(j)
    case Ref(id) =>
      if Contents(h[id]) == [] then Some(Build(h[id], []))
      else if id in active then None
      else
        match UnfoldAll(h, Contents(h[id]), active + {id})
        case None => None
        case Some(values) => Some(Build(h[id], values))
  }

  function UnfoldAll(h: Heap, vs: seq<Val>, active: set<nat>): (r: Option<seq<Json>>)
    requires Closed(h) && forall v :: v in vs ==> ValIn(h, v)
    ensures r.Some? ==> |r.value| == |vs|
    decreases h.Keys - active, 1, |vs|
  {
    if vs == [] then Some([])
    else
      match Unfold(h, vs[0], active)
      case None => None
      case Some(j) =>
        match UnfoldAll(h, vs[1..], active)
        case None => None
        case Some(rest) => Some([j] + rest)
  }

  // ---- Cycles -----------------------------------------------------------------------------

  ghost predicate Path(h: Heap, p: seq<nat>) {
    p != [] && (forall i :: 0 <= i < |p| ==> p[i] in h) &&
    forall i :: 0 <= i < |p| - 1 ==> Ref(p[i + 1]) in Contents(h[p[i]])
  }

  ghost predicate PathFrom(h: Heap, v: Val, p: seq<nat>) {
    Path(h, p) && v == Ref(p[0])
  }

  /** An object contains itself, below v. */
  ghost predicate ReachesCycle(h: Heap, v: Val) {
    exists p, i :: PathFrom(h, v, p) && 0 <= i < |p| - 1 && p[i] == p[|p| - 1]
  }

  // Why there is no tree: a path comes back to itself or into an object around it.
  ghost predicate Circular(h: Heap, active: set<nat>, p: seq<nat>)
    requires Path(h, p)
  {
    var last := p[|p| - 1];
    (last in active && Contents(h[last]) != []) || exists i :: 0 <= i < |p| - 1 && p[i] == last
  }

  lemma PathCons(h: Heap, id: nat, p: seq<nat>)
    requires Path(h, p) && id in h && Ref(p[0]) in Contents(h[id])
    ensures Path(h, [id] + p)
  {
    var q := [id] + p;
    forall i | 0 <= i < |q| - 1 ensures Ref(q[i + 1]) in Contents(h[q[i]]) {
      assert i > 0 ==> q[i] == p[i - 1] && q[i + 1] == p[i];
    }
  }

  lemma PathTail(h: Heap, p: seq<nat>)
    requires Path(h, p) && |p| > 1
    ensures Path(h, p[1..])
  {
    var q := p[1..];
    forall i | 0 <= i < |q| - 1 ensures Ref(q[i + 1]) in Contents(h[q[i]]) {
      assert q[i] == p[i + 1] && q[i + 1] == p[i + 2];
    }
  }

  lemma {:induction false} FindCircle(h: Heap, v: Val, active: set<nat>) returns (p: seq<nat>)
    requires Closed(h) && ValIn(h, v) && Unfold(h, v, active).None?
    ensures PathFrom(h, v, p) && Circular(h, active, p)
    decreases h.Keys - active, 0, 0
  {
    var id := v.id;
    if id in active {
      p := [id];
    } else {
      var w := FindNone(h, Contents(h[id]), active + {id});
      var q := FindCircle(h, w, active + {id});
      PathCons(h, id, q);
      p := [id] + q;
      var last := q[|q| - 1];
      if last == id {
        assert p[0] == p[|p| - 1];
      } else if exists i :: 0 <= i < |q| - 1 && q[i] == last {
        var i :| 0 <= i < |q| - 1 && q[i] == last;
        assert p[i + 1] == p[|p| - 1];
      }
    }
  }

  lemma {:induction false} FindNone(h: Heap, vs: seq<Val>, active: set<nat>) returns (w: Val)
    requires Closed(h) && (forall v :: v in vs ==> ValIn(h, v)) && UnfoldAll(h, vs, active).None?
    ensures w in vs && Unfold(h, w, active).None?
  {
    if Unfold(h, vs[0], active).None? {
      w := vs[0];
    } else {
      w := FindNone(h, vs[1..], active);
    }
  }

  lemma {:induction false} NoneFound(h: Heap, vs: seq<Val>, active: set<nat>, w: Val)
    requires Closed(h) && (forall v :: v in vs ==> ValIn(h, v)) && w in vs && Unfold(h, w, active).None?
    ensures UnfoldAll(h, vs, active).None?
  {
    if w != vs[0] {
      NoneFound(h, vs[1..], active, w);
    }
  }

  lemma {:induction false} UnfoldSnoc(h: Heap, vs: seq<Val>, v: Val, active: set<nat>)
    requires Closed(h) && (forall w :: w in vs ==> ValIn(h, w)) && ValIn(h, v)
    requires UnfoldAll(h, vs, active).Some? && Unfold(h, v, active).Some?
    ensures UnfoldAll(h, vs + [v], active)
         == Some(UnfoldAll(h, vs, active).value + [Unfold(h, v, active).value])
  {
    if vs == [] {
      assert vs + [v] == [v] && [v][1..] == [] && UnfoldAll(h, [], active) == Some([]);
      var j := Unfold(h, v, active).value;
      assert UnfoldAll(h, [v], active) == Some([j] + []);
      assert UnfoldAll(h, vs, active).value + [j] == [j] + [];
    } else {
      assert (vs + [v])[1..] == vs[1..] + [v] && (vs + [v])[0] == vs[0];
      UnfoldSnoc(h, vs[1..], v, active);
      var j, rest, last := Unfold(h, vs[0], active).value, UnfoldAll(h, vs[1..], active).value, Unfold(h, v, active).value;
      assert [j] + (rest + [last]) == ([j] + rest) + [last];
    }
  }

  lemma {:induction false} CircleFound(h: Heap, v: Val, active: set<nat>, p: seq<nat>)
    requires Closed(h) && ValIn(h, v) && PathFrom(h, v, p) && Circular(h, active, p)
    ensures Unfold(h, v, active).None?
    decreases |p|
  {
    var id := v.id;
    assert Contents(h[id]) != [] by {
      assert |p| > 1 ==> Ref(p[1]) in Contents(h[p[0]]);
    }
    if id !in active {
      PathTail(h, p);
      var q := p[1..];
      var last := p[|p| - 1];
      if exists i :: 0 <= i < |p| - 1 && p[i] == last {
        var i :| 0 <= i < |p| - 1 && p[i] == last;
        assert i > 0 ==> q[i - 1] == q[|q| - 1];
      }
      CircleFound(h, Ref(p[1]), active + {id}, q);
      NoneFound(h, Contents(h[id]), active + {id}, Ref(p[1]));
    }
  }

  /** A value has no tree exactly when a cycle can be reached from it; sharing is no
      obstacle. */
  lemma NoTreeIffCycle(h: Heap, v: Val)
    requires Closed(h) && ValIn(h, v)
    ensures Unfold(h, v, {}).None? <==> ReachesCycle(h, v)
  {
    if Unfold(h, v, {}).None? {
      var p := FindCircle(h, v, {});
    }
    if ReachesCycle(h, v) {
      var p: seq<nat>, i: int :| PathFrom(h, v, p) && 0 <= i < |p| - 1 && p[i] == p[|p| - 1];
      CircleFound(h, v, {}, p);
    }
  }
}
