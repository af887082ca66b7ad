// _make_iterencode with check_circular: the generators that walk over lists and dicts
// with an indentation level and a dict of markers. What they yield is collected.
module JsonEncoder {
  import opened JsonText
  import opened JsonParse
  import opened JsonEncode
  import opened JsonGraph
  import opened JsonRoundTrip
  import opened JsonLayout
  import opened JsonForm

  lemma {:induction false} EncodeItemsSnoc(vs: seq<Json>, v: Json, o: Options, level: nat)
    requires vs != []
    ensures EncodeItems(vs + [v], o, level) == EncodeItems(vs, o, level) + ItemBreak(o, level) + Encode(v, o, level)
  {
    hide Encode, ItemBreak;
    if |vs| == 1 {
      assert (vs + [v])[1..] == [v];
    } else {
      assert (vs + [v])[1..] == vs[1..] + [v];
      EncodeItemsSnoc(vs[1..], v, o, level);
      Reassociate(Encode(vs[0], o, level), ItemBreak(o, level), EncodeItems(vs[1..], o, level),
                  ItemBreak(o, level), Encode(v, o, level));
    }
  }

  lemma {:induction false} EncodePairsSnoc(ps: seq<(Text, Json)>, p: (Text, Json), o: Options, level: nat)
    requires ps != []
    ensures EncodePairs(ps + [p], o, level) == EncodePairs(ps, o, level) + ItemBreak(o, level) + EncodePair(p, o, level)
  {
    hide EncodePair, ItemBreak;
    if |ps| == 1 {
      assert (ps + [p])[1..] == [p];
    } else {
      assert (ps + [p])[1..] == ps[1..] + [p];
      EncodePairsSnoc(ps[1..], p, o, level);
      Reassociate(EncodePair(ps[0], o, level), ItemBreak(o, level), EncodePairs(ps[1..], o, level),
                  ItemBreak(o, level), EncodePair(p, o, level));
    }
  }

  // The text so far with one more member.
  lemma PairsStep(members: seq<(Text, Json)>, member: (Text, Json), o: Options, level: nat, text: Text)
    requires text == if members == [] then [] else EncodePairs(members, o, level) + ItemBreak(o, level)
    ensures
      text + (EncodeString(member.0, o) + SeparatorText(o.keySeparator, COLON) + Encode(member.1, o, level)) ==
      EncodePairs(members + [member], o, level)
  {
    hide Encode, ItemBreak, EncodeString, SeparatorText;
    if members == [] {
      assert members + [member] == [member] && [] + EncodePair(member, o, level) == EncodePair(member, o, level);
    } else {
      EncodePairsSnoc(members, member, o, level);
    }
  }

  lemma Reassociate(a: Text, b: Text, c: Text, d: Text, e: Text)
    ensures a + b + (c + d + e) == (a + b + c) + d + e
  {
  }

  class Encoder {
    const heap: Heap
    const o: Options
    var markers: set<nat>

    constructor (heap: Heap, o: Options)
      ensures this.heap == heap && this.o == o && markers == {}
    {
      this.heap, this.o, markers := heap, o, {};
    }

    // What a call for a value has to give: the text of its tree, or None for the
    // ValueError "Circular reference detected".
    function Expected(v: Val, active: set<nat>, level: nat): Option<Text>
      requires Closed(heap) && ValIn(heap, v)
    {
      match Unfold(heap, v, active)
      case None => None
      case Some(j) => Some(Encode(j, o, level))
    }

    // _iterencode, and the same choice inside the two loops.
    method Iterencode(v: Val, level: nat) returns (r: Option<Text>)
      requires Closed(heap) && ValIn(heap, v)
      modifies this
      ensures r == Expected(v, old(markers), level)
      ensures r.Some? ==> markers == old(markers)
      decreases heap.Keys - markers, 2
    {
      match v
      case Scalar(j) =>
        r := Some(EncodeScalar(j, o));
      case Ref(id) =>
        match heap[id] {
          case ListObj(items) => r := IterencodeList(id, items, level);
          case DictObj(pairs) => r := IterencodeDict(id, pairs, level);
        }
    }

    method IterencodeList(id: nat, items: seq<Val>, currentLevel: nat) returns (r: Option<Text>)
      requires Closed(heap) && id in heap && heap[id] == ListObj(items)
      modifies this
      ensures r == Expected(Ref(id), old(markers), currentLevel)
      ensures r.Some? ==> markers == old(markers)
      decreases heap.Keys - markers, 1
    {
      if items == [] {
        return Some([OPEN_BRACKET, CLOSE_BRACKET]);
      }
      if id in markers {
        return None;
      }
      ghost var before := markers;
      markers := markers + {id};
      var level := currentLevel + 1;
      var body, values := ListItems(items, level);
      if body.None? {
        return None;
      }
      r := Some([OPEN_BRACKET] + Indentation(o, level) + body.value + Indentation(o, currentLevel) + [CLOSE_BRACKET]);
      markers := markers - {id};
      assert markers == before;
    }

    // The loop over the elements, with `buf` in front of each.
    method ListItems(items: seq<Val>, level: nat) returns (r: Option<Text>, ghost values: seq<Json>)
      requires Closed(heap) && items != [] && forall v :: v in items ==> ValIn(heap, v)
      modifies this
      ensures r.None? ==> UnfoldAll(heap, items, old(markers)).None?
      ensures r.Some? ==> markers == old(markers) && UnfoldAll(heap, items, markers) == Some(values)
      ensures r.Some? ==> values != [] && r.value == EncodeItems(values, o, level)
      decreases heap.Keys - markers, 3
    {
      hide Unfold, Encode, ItemBreak;
      var buf: Text := [];
      var text: Text := [];
      values := [];
      var first := true;
      for k := 0 to |items|
        invariant markers == old(markers) && |values| == k && first == (k == 0)
        invariant UnfoldAll(heap, items[..k], markers) == Some(values)
        invariant k > 0 ==> text == EncodeItems(values, o, level)
        invariant k == 0 ==> text == buf == []
      {
        if first {
          first := false;
        } else {
          buf := ItemBreak(o, level);
        }
        ghost var active := markers;
        var chunk := Iterencode(items[k], level);
        if chunk.None? {
          NoneFound(heap, items, active, items[k]);
          return None, [];
        }
        ghost var j := Unfold(heap, items[k], markers).value;
        UnfoldSnoc(heap, items[..k], items[k], markers);
        assert items[..k] + [items[k]] == items[..k + 1];
        if k > 0 {
          EncodeItemsSnoc(values, j, o, level);
        }
        text := text + buf + chunk.value;
        values := values + [j];
      }
      assert items[..|items|] == items;
      r := Some(text);
    }

    method IterencodeDict(id: nat, pairs: seq<(Text, Val)>, currentLevel: nat) returns (r: Option<Text>)
      requires Closed(heap) && id in heap && heap[id] == DictObj(pairs)
      modifies this
      ensures r == Expected(Ref(id), old(markers), currentLevel)
      ensures r.Some? ==> markers == old(markers)
      decreases heap.Keys - markers, 1
    {
      if pairs == [] {
        return Some([OPEN_BRACE, CLOSE_BRACE]);
      }
      if id in markers {
        return None;
      }
      ghost var before := markers;
      markers := markers + {id};
      var level := currentLevel + 1;
      var body, members := DictItems(pairs, level);
      if body.None? {
        return None;
      }
      r := Some([OPEN_BRACE] + Indentation(o, level) + body.value + Indentation(o, currentLevel) + [CLOSE_BRACE]);
      markers := markers - {id};
      assert markers == before;
    }

    // The loop over the items of a dict.
    method DictItems(pairs: seq<(Text, Val)>, level: nat) returns (r: Option<Text>, ghost members: seq<(Text, Json)>)
      requires Closed(heap) && pairs != [] && forall v :: v in Contents(DictObj(pairs)) ==> ValIn(heap, v)
      modifies this
      ensures r.None? ==> UnfoldAll(heap, Contents(DictObj(pairs)), old(markers)).None?
      ensures r.Some? ==> markers == old(markers) && UnfoldAll(heap, Contents(DictObj(pairs)), markers).Some?
      ensures r.Some? ==>
        var values := UnfoldAll(heap, Contents(DictObj(pairs)), markers).value;
        members != [] && Build(DictObj(pairs), values) == Dict(members) && r.value == EncodePairs(members, o, level)
      decreases heap.Keys - markers, 3
    {
      hide Unfold, Encode, EncodePair, EncodePairs, EncodeString, SeparatorText, ItemBreak;
      ghost var vs := Contents(DictObj(pairs));
      var text: Text := [];
      members := [];
      ghost var values: seq<Json> := [];
      var first := true;
      for k := 0 to |pairs|
        invariant markers == old(markers) && |values| == |members| == k && first == (k == 0)
        invariant forall m :: 0 <= m < k ==> members[m] == (pairs[m].0, values[m])
        invariant UnfoldAll(heap, vs[..k], markers) == Some(values)
        invariant k > 0 ==> text == EncodePairs(members, o, level)
        invariant k == 0 ==> text == []
      {
        if first {
          first := false;
        } else {
          text := text + ItemBreak(o, level);
        }
        var name := EncodeString(pairs[k].0, o) + SeparatorText(o.keySeparator, COLON);
        ghost var active := markers;
        assert vs[k] == pairs[k].1 && vs[k] in vs;
        var chunk := Iterencode(pairs[k].1, level);
        if chunk.None? {
          NoneFound(heap, vs, active, vs[k]);
          return None, [];
        }
        ghost var j := Unfold(heap, vs[k], markers).value;
        UnfoldSnoc(heap, vs[..k], vs[k], markers);
        assert vs[..k] + [vs[k]] == vs[..k + 1];
        ghost var member := (pairs[k].0, j);
        PairsStep(members, member, o, level, text);
        text := text + (name + chunk.value);
        values := values + [j];
        members := members + [member];
      }
      assert vs[..|vs|] == vs;
      r := Some(text);
      assert Build(DictObj(pairs), values) == Dict(members);
    }
  }

  /** JSONEncoder.encode with check_circular, on any object graph: it ends, raises the
      error exactly when a cycle can be reached, leaves no markers behind otherwise, and
      then the decoder reads the tree of the object back from the text. */
  method EncodeObject(heap: Heap, root: Val, o: Options) returns (r: Option<Text>)
    requires Closed(heap) && ValIn(heap, root)
    ensures r.None? <==> ReachesCycle(heap, root)
    ensures r.Some? ==> Unfold(heap, root, {}).Some? && r.value == Encode(Unfold(heap, root, {}).value, o, 0)
    ensures r.Some? && OptionsOk(o) && Encodable(Unfold(heap, root, {}).value, o) ==>
      forall strict :: Decode(r.value, strict) == Ok(Unfold(heap, root, {}).value, |r.value|)
    ensures r.Some? && OptionsOk(o) && Encodable(Unfold(heap, root, {}).value, o) ==>
      exists l :: Lays(l, Unfold(heap, root, {}).value, r.value, true) && LaidOut(l, o, 0)
  {
    hide Decode, Encode;
    var encoder := new Encoder(heap, o);
    r := encoder.Iterencode(root, 0);
    assert r.Some? ==> encoder.markers == {};
    NoTreeIffCycle(heap, root);
    if r.Some? && OptionsOk(o) && Encodable(Unfold(heap, root, {}).value, o) {
      forall strict ensures Decode(r.value, strict) == Ok(Unfold(heap, root, {}).value, |r.value|) {
        EncodeDecode(Unfold(heap, root, {}).value, o, strict);
      }
      var l := EncodedForm(Unfold(heap, root, {}).value, o, true);
    }
  }
}
