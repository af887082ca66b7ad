// The longest common subsequence of two arrays: what it is, and the table and backtrace
// that find one, for whatever a block takes for equal.
module Lcs {
  datatype Option<+T> = None | Some(value: T)

  // What the block yields for two elements: nothing, or the value that stands for both.
  type Block<!A, !B, +V> = (A, B) -> Option<V>

  // ---- Alignments ---------------------------------------------------------------------------

  // Pairs of positions in x and y, each one behind the one before it on both sides.
  type Pairs = seq<(nat, nat)>

  ghost predicate Alignment<A, B, V>(x: seq<A>, y: seq<B>, f: Block<A, B, V>, i: nat, j: nat, ps: Pairs) {
    i <= |x| && j <= |y| &&
    (forall k :: 0 <= k < |ps| ==> ps[k].0 < i && ps[k].1 < j && f(x[ps[k].0], y[ps[k].1]).Some?) &&
    (forall k, l :: 0 <= k < l < |ps| ==> ps[k].0 < ps[l].0 && ps[k].1 < ps[l].1)
  }

  // An alignment of the first i elements of x with the first j of y that none exceeds.
  ghost predicate Longest<A, B, V>(x: seq<A>, y: seq<B>, f: Block<A, B, V>, i: nat, j: nat, ps: Pairs) {
    Alignment(x, y, f, i, j, ps) && (forall qs: Pairs :: Alignment(x, y, f, i, j, qs) ==> |qs| <= |ps|)
  }

  // The values for the pairs.
  ghost function Values<A, B, V>(x: seq<A>, y: seq<B>, f: Block<A, B, V>, ps: Pairs): (r: seq<V>)
    requires Alignment(x, y, f, |x|, |y|, ps)
    ensures |r| == |ps|
  {
    seq(|ps|, k requires 0 <= k < |ps| => f(x[ps[k].0], y[ps[k].1]).value)
  }

  // ---- The table and the way back through it --------------------------------------------------

  function Max(a: nat, b: nat): nat { if a < b then b else a }

  function Length<A, B, V>(x: seq<A>, y: seq<B>, f: Block<A, B, V>, i: nat, j: nat): nat
    requires i <= |x| && j <= |y|
  {
    if i == 0 || j == 0 then 0
    else if f(x[i - 1], y[j - 1]).Some? then Length(x, y, f, i - 1, j - 1) + 1
    else Max(Length(x, y, f, i, j - 1), Length(x, y, f, i - 1, j))
  }

  function Trace<A, B, V>(x: seq<A>, y: seq<B>, f: Block<A, B, V>, i: nat, j: nat): Pairs
    requires i <= |x| && j <= |y|
  {
    if i == 0 || j == 0 then []
    else if f(x[i - 1], y[j - 1]).Some? then Trace(x, y, f, i - 1, j - 1) + [(i - 1, j - 1)]
    else if Length(x, y, f, i, j - 1) > Length(x, y, f, i - 1, j) then Trace(x, y, f, i, j - 1)
    else Trace(x, y, f, i - 1, j)
  }

  // One more cell of the table.
  lemma Cell<A, B, V>(x: seq<A>, y: seq<B>, f: Block<A, B, V>, i: nat, j: nat)
    requires i <= |x| && j <= |y|
    ensures i == 0 || j == 0 ==> Length(x, y, f, i, j) == 0
    ensures i > 0 && j > 0 && f(x[i - 1], y[j - 1]).Some? ==> Length(x, y, f, i, j) == Length(x, y, f, i - 1, j - 1) + 1
    ensures i > 0 && j > 0 && f(x[i - 1], y[j - 1]).None? ==>
      Length(x, y, f, i, j) == Max(Length(x, y, f, i, j - 1), Length(x, y, f, i - 1, j))
  {
  }

  // One more step of the way back.
  lemma Step<A, B, V>(x: seq<A>, y: seq<B>, f: Block<A, B, V>, i: nat, j: nat)
    requires i <= |x| && j <= |y|
    ensures i == 0 || j == 0 ==> Trace(x, y, f, i, j) == []
    ensures i > 0 && j > 0 && f(x[i - 1], y[j - 1]).Some? ==> Trace(x, y, f, i, j) == Trace(x, y, f, i - 1, j - 1) + [(i - 1, j - 1)]
    ensures i > 0 && j > 0 && f(x[i - 1], y[j - 1]).None? ==>
      Trace(x, y, f, i, j) ==
      if Length(x, y, f, i, j - 1) > Length(x, y, f, i - 1, j) then Trace(x, y, f, i, j - 1) else Trace(x, y, f, i - 1, j)
  {
    hide Length;
  }

  // Alignments come together where a pair of the one is in front of a pair of the other.
  lemma Splice<A, B, V>(x: seq<A>, y: seq<B>, f: Block<A, B, V>, ps: Pairs, k: nat, i: nat, j: nat, qs: Pairs, l: nat)
    requires Alignment(x, y, f, |x|, |y|, ps) && Alignment(x, y, f, i, j, qs)
    requires k < |ps| && l < |qs| && ps[k].0 < qs[l].0 && ps[k].1 < qs[l].1
    ensures Alignment(x, y, f, i, j, ps[..k + 1] + qs[l..])
  {
    var rs := ps[..k + 1] + qs[l..];
    forall m | 0 <= m < |rs|
      ensures rs[m].0 < i && rs[m].1 < j && f(x[rs[m].0], y[rs[m].1]).Some?
    {
      if m <= k {
        assert rs[m] == ps[m];
        assert rs[m].0 <= ps[k].0 && rs[m].1 <= ps[k].1;
      } else {
        assert rs[m] == qs[m - k - 1 + l];
      }
    }
    forall m, n | 0 <= m < n < |rs| ensures rs[m].0 < rs[n].0 && rs[m].1 < rs[n].1 {
      if m <= k < n {
        assert rs[m] == ps[m] && rs[n] == qs[n - k - 1 + l];
        assert ps[m].0 <= ps[k].0 && ps[m].1 <= ps[k].1;
        assert qs[l].0 <= qs[n - k - 1 + l].0 && qs[l].1 <= qs[n - k - 1 + l].1;
      }
    }
  }

  lemma ExtendAligns<A, B, V>(x: seq<A>, y: seq<B>, f: Block<A, B, V>, i: nat, j: nat, ps: Pairs)
    requires i < |x| && j < |y| && f(x[i], y[j]).Some?
    requires Alignment(x, y, f, i, j, ps)
    ensures Alignment(x, y, f, i + 1, j + 1, ps + [(i, j)])
  {
  }

  lemma Extend<A, B, V>(x: seq<A>, y: seq<B>, f: Block<A, B, V>, i: nat, j: nat, ps: Pairs)
    requires i < |x| && j < |y| && f(x[i], y[j]).Some?
    requires Alignment(x, y, f, i, j, ps)
    ensures Alignment(x, y, f, |x|, |y|, ps) && Alignment(x, y, f, |x|, |y|, ps + [(i, j)])
    ensures Values(x, y, f, ps + [(i, j)]) == Values(x, y, f, ps) + [f(x[i], y[j]).value]
  {
  }

  lemma {:induction false} TraceAligns<A, B, V>(x: seq<A>, y: seq<B>, f: Block<A, B, V>, i: nat, j: nat)
    requires i <= |x| && j <= |y|
    ensures Alignment(x, y, f, i, j, Trace(x, y, f, i, j))
    ensures |Trace(x, y, f, i, j)| == Length(x, y, f, i, j)
  {
    hide Values, Alignment, Trace, Length;
    Step(x, y, f, i, j);
    Cell(x, y, f, i, j);
    if i == 0 || j == 0 {
      NoPairs(x, y, f, i, j);
    } else if f(x[i - 1], y[j - 1]).Some? {
      TraceAligns(x, y, f, i - 1, j - 1);
      ExtendAligns(x, y, f, i - 1, j - 1, Trace(x, y, f, i - 1, j - 1));
    } else if Length(x, y, f, i, j - 1) > Length(x, y, f, i - 1, j) {
      TraceAligns(x, y, f, i, j - 1);
      Wider(x, y, f, i, j - 1, i, j, Trace(x, y, f, i, j - 1));
    } else {
      TraceAligns(x, y, f, i - 1, j);
      Wider(x, y, f, i - 1, j, i, j, Trace(x, y, f, i - 1, j));
    }
  }

  lemma NoPairs<A, B, V>(x: seq<A>, y: seq<B>, f: Block<A, B, V>, i: nat, j: nat)
    requires i <= |x| && j <= |y|
    ensures Alignment(x, y, f, i, j, [])
  {
  }

  lemma Wider<A, B, V>(x: seq<A>, y: seq<B>, f: Block<A, B, V>, i: nat, j: nat, k: nat, l: nat, ps: Pairs)
    requires Alignment(x, y, f, i, j, ps) && i <= k <= |x| && j <= l <= |y|
    ensures Alignment(x, y, f, k, l, ps)
  {
  }

  // An alignment without its last pair fits in front of that pair.
  lemma WithoutLast<A, B, V>(x: seq<A>, y: seq<B>, f: Block<A, B, V>, i: nat, j: nat, ps: Pairs)
    requires Alignment(x, y, f, i, j, ps) && ps != []
    ensures Alignment(x, y, f, ps[|ps| - 1].0, ps[|ps| - 1].1, ps[..|ps| - 1])
  {
  }

  lemma {:induction false} LengthBounds<A, B, V>(x: seq<A>, y: seq<B>, f: Block<A, B, V>, i: nat, j: nat, ps: Pairs)
    requires Alignment(x, y, f, i, j, ps)
    ensures |ps| <= Length(x, y, f, i, j)
    decreases i + j
  {
    if ps != [] {
      var (a, b) := ps[|ps| - 1];
      if f(x[i - 1], y[j - 1]).Some? {
        LengthBounds(x, y, f, i - 1, j - 1, ps[..|ps| - 1]);
      } else if a < i - 1 {
        LengthBounds(x, y, f, i - 1, j, ps);
      } else {
        LengthBounds(x, y, f, i, j - 1, ps);
      }
    }
  }

  /** The way back is a longest alignment, whatever the block takes for equal. */
  lemma TraceLongest<A, B, V>(x: seq<A>, y: seq<B>, f: Block<A, B, V>, i: nat, j: nat)
    requires i <= |x| && j <= |y|
    ensures Longest(x, y, f, i, j, Trace(x, y, f, i, j))
  {
    TraceAligns(x, y, f, i, j);
    forall qs: Pairs | Alignment(x, y, f, i, j, qs) ensures |qs| <= |Trace(x, y, f, i, j)| {
      LengthBounds(x, y, f, i, j, qs);
    }
  }

  // ---- Which of the longest it is --------------------------------------------------------------

  // Up to its first pair's place in x there is an element that could take that place in ps.
  ghost predicate StartsBy<A, B, V>(x: seq<A>, y: seq<B>, f: Block<A, B, V>, ps: Pairs, start: nat) {
    exists a :: 0 <= a <= start && a < |x| && |ps| > 0 && ps[0].1 < |y| && f(x[a], y[ps[0].1]).Some?
  }

  // Where ps, which starts in front of qs, gets behind it.
  lemma Crossing(ps: Pairs, qs: Pairs) returns (k: nat)
    requires |ps| == |qs| > 0 && ps[0].0 < qs[0].0 && qs[|qs| - 1].0 < ps[|ps| - 1].0
    ensures k + 1 < |ps| && ps[k].0 <= qs[k].0 && qs[k + 1].0 < ps[k + 1].0
  {
    k := 0;
    while ps[k + 1].0 <= qs[k + 1].0
      invariant k + 1 < |ps| && ps[k].0 <= qs[k].0
      decreases |ps| - k
    {
      k := k + 1;
    }
  }

  /* Two alignments of the same length, of which ps starts in front of qs in x and ends
     behind it. Where they cross, either ps can go on with qs, or qs can go on with ps and
     is longer. */
  lemma Cross<A, B, V>(x: seq<A>, y: seq<B>, f: Block<A, B, V>, i: nat, j: nat, ps: Pairs, qs: Pairs) returns (rs: Pairs)
    requires 0 < i && Longest(x, y, f, i, j, ps) && Alignment(x, y, f, i - 1, j, qs)
    requires |ps| == |qs| > 0 && ps[0].0 < qs[0].0 && qs[|qs| - 1].0 < ps[|ps| - 1].0
    ensures Alignment(x, y, f, i - 1, j, rs) && |rs| == |ps| && rs[0] == ps[0]
  {
    hide Alignment;
    var k := Crossing(ps, qs);
    AlignmentBounds(x, y, f, i, j, ps);
    Wider(x, y, f, i, j, |x|, |y|, ps);
    Wider(x, y, f, i - 1, j, |x|, |y|, qs);
    NextPair(x, y, f, i, j, ps, k);
    NextPair(x, y, f, i - 1, j, qs, k);
    if qs[k + 1].1 <= ps[k].1 {
      Splice(x, y, f, qs, k + 1, i, j, ps, k + 1);
    }
    Splice(x, y, f, ps, k, i - 1, j, qs, k + 1);
    rs := ps[..k + 1] + qs[k + 1..];
  }

  lemma NextPair<A, B, V>(x: seq<A>, y: seq<B>, f: Block<A, B, V>, i: nat, j: nat, ps: Pairs, k: nat)
    requires Alignment(x, y, f, i, j, ps) && k + 1 < |ps|
    ensures ps[k].0 < ps[k + 1].0 && ps[k].1 < ps[k + 1].1
  {
  }

  // Another longest alignment that starts as early can do without the last element of x.
  lemma WithoutLastOfX<A, B, V>(x: seq<A>, y: seq<B>, f: Block<A, B, V>, i: nat, j: nat, ps: Pairs) returns (rs: Pairs)
    requires 0 < i <= |x| && 0 < j <= |y|
    requires Longest(x, y, f, i, j, ps) && ps != [] && Length(x, y, f, i - 1, j) == |ps|
    ensures Longest(x, y, f, i - 1, j, rs) && rs != [] && rs[0].0 <= ps[0].0
  {
    hide Alignment, Length, Trace;
    var qs := Trace(x, y, f, i - 1, j);
    TraceAligns(x, y, f, i - 1, j);
    TraceLongest(x, y, f, i - 1, j);
    AlignmentBounds(x, y, f, i, j, ps);
    AlignmentBounds(x, y, f, i - 1, j, qs);
    if ps[|ps| - 1].0 < i - 1 {
      Fits(x, y, f, i, j, ps, i - 1, j);
      rs := ps;
    } else if qs[0].0 <= ps[0].0 {
      rs := qs;
    } else {
      rs := Cross(x, y, f, i, j, ps, qs);
    }
  }

  lemma AlignmentBounds<A, B, V>(x: seq<A>, y: seq<B>, f: Block<A, B, V>, i: nat, j: nat, ps: Pairs)
    requires Alignment(x, y, f, i, j, ps) && ps != []
    ensures i <= |x| && j <= |y| && ps[0].0 <= ps[|ps| - 1].0 < i && ps[|ps| - 1].1 < j
    ensures f(x[ps[|ps| - 1].0], y[ps[|ps| - 1].1]).Some?
  {
  }

  lemma Fits<A, B, V>(x: seq<A>, y: seq<B>, f: Block<A, B, V>, i: nat, j: nat, ps: Pairs, k: nat, l: nat)
    requires Alignment(x, y, f, i, j, ps) && k <= |x| && l <= |y|
    requires ps != [] ==> ps[|ps| - 1].0 < k && ps[|ps| - 1].1 < l
    ensures Alignment(x, y, f, k, l, ps)
  {
  }

  /** No longest alignment starts in x in front of every element that could stand at the
      start of this one. */
  lemma {:induction false} TraceStartsFirst<A, B, V>(x: seq<A>, y: seq<B>, f: Block<A, B, V>, i: nat, j: nat, ps: Pairs)
    requires Longest(x, y, f, i, j, ps) && ps != []
    ensures StartsBy(x, y, f, Trace(x, y, f, i, j), ps[0].0)
    decreases i + j
  {
    hide Alignment;
    AlignmentBounds(x, y, f, i, j, ps);
    TraceAligns(x, y, f, i, j);
    TraceLongest(x, y, f, i, j);
    if f(x[i - 1], y[j - 1]).Some? {
      MatchStartsFirst(x, y, f, i, j, ps);
    } else if Length(x, y, f, i, j - 1) > Length(x, y, f, i - 1, j) {
      if ps[|ps| - 1].0 < i - 1 {
        Fits(x, y, f, i, j, ps, i - 1, j);
        LengthBounds(x, y, f, i - 1, j, ps);
      }
      Fits(x, y, f, i, j, ps, i, j - 1);
      TraceAligns(x, y, f, i, j - 1);
      TraceLongest(x, y, f, i, j - 1);
      TraceStartsFirst(x, y, f, i, j - 1, ps);
    } else {
      var rs := WithoutLastOfX(x, y, f, i, j, ps);
      TraceStartsFirst(x, y, f, i - 1, j, rs);
    }
  }

  // When the last elements match, they are the last pair.
  lemma {:induction false} MatchStartsFirst<A, B, V>(x: seq<A>, y: seq<B>, f: Block<A, B, V>, i: nat, j: nat, ps: Pairs)
    requires 0 < i <= |x| && 0 < j <= |y|
    requires Longest(x, y, f, i, j, ps) && ps != [] && f(x[i - 1], y[j - 1]).Some?
    ensures StartsBy(x, y, f, Trace(x, y, f, i, j), ps[0].0)
    decreases i + j, 0
  {
    hide Alignment, Values, Trace, Length;
    Step(x, y, f, i, j);
    AlignmentBounds(x, y, f, i, j, ps);
    TraceAligns(x, y, f, i, j);
    TraceAligns(x, y, f, i - 1, j - 1);
    TraceLongest(x, y, f, i, j);
    TraceLongest(x, y, f, i - 1, j - 1);
    var front := ps[..|ps| - 1];
    WithoutLast(x, y, f, i, j, ps);
    if front == [] {
      OnlyPair(x, y, f, i, j, ps);
    } else {
      AlignmentBounds(x, y, f, ps[|ps| - 1].0, ps[|ps| - 1].1, front);
      Fits(x, y, f, ps[|ps| - 1].0, ps[|ps| - 1].1, front, i - 1, j - 1);
      TraceStartsFirst(x, y, f, i - 1, j - 1, front);
    }
  }

  // A single pair is not in front of the last elements, which match, too.
  lemma OnlyPair<A, B, V>(x: seq<A>, y: seq<B>, f: Block<A, B, V>, i: nat, j: nat, ps: Pairs)
    requires 0 < i <= |x| && 0 < j <= |y| && f(x[i - 1], y[j - 1]).Some?
    requires Longest(x, y, f, i, j, ps) && |ps| == 1
    ensures ps[0].0 == i - 1 || ps[0].1 == j - 1
  {
    if ps[0].0 < i - 1 && ps[0].1 < j - 1 {
      Fits(x, y, f, i, j, ps, i - 1, j - 1);
      ExtendAligns(x, y, f, i - 1, j - 1, ps);
    }
  }

  // Where an element first stands.
  ghost predicate StandsBefore<T>(x: seq<T>, e: T, start: nat) {
    exists a :: 0 <= a <= start && a < |x| && x[a] == e
  }

  // ps, an alignment of x and y, starts with an element that stands in x by the start of any longest one.
  ghost predicate StartsFirst<A, B, V>(x: seq<A>, y: seq<B>, f: Block<A, B, V>, ps: Pairs) {
    forall qs: Pairs :: Longest(x, y, f, |x|, |y|, qs) && qs != [] ==>
      ps != [] && ps[0].0 < |x| && StandsBefore(x, x[ps[0].0], qs[0].0)
  }

  // No two elements match the same one of the other sequence.
  ghost predicate MatchesOne<A(!new), B(!new), V>(f: Block<A, B, V>) {
    forall a, c, b :: f(a, b).Some? && f(c, b).Some? ==> a == c
  }

  lemma StartsFirstOfOne<A(!new), B(!new), V>(x: seq<A>, y: seq<B>, f: Block<A, B, V>)
    requires MatchesOne(f)
    ensures StartsFirst(x, y, f, Trace(x, y, f, |x|, |y|))
  {
    var ps := Trace(x, y, f, |x|, |y|);
    TraceAligns(x, y, f, |x|, |y|);
    forall qs: Pairs | Longest(x, y, f, |x|, |y|, qs) && qs != []
      ensures ps != [] && ps[0].0 < |x| && StandsBefore(x, x[ps[0].0], qs[0].0)
    {
      TraceStartsFirst(x, y, f, |x|, |y|, qs);
      var a: nat :| a <= qs[0].0 && a < |x| && f(x[a], y[ps[0].1]).Some?;
      assert x[a] == x[ps[0].0];
    }
  }

  // Two elements in a row that match the same one: the way back takes the second.
  lemma SecondOfTwo<A, B, V>(a: A, c: A, b: B, f: Block<A, B, V>)
    requires f(a, b).Some? && f(c, b).Some?
    ensures Trace([a, c], [b], f, 2, 1) == [(1, 0)] && Longest([a, c], [b], f, 2, 1, [(0, 0)])
  {
    var x, y := [a, c], [b];
    assert Trace(x, y, f, 1, 0) == [];
    assert Trace(x, y, f, 2, 1) == [] + [(1, 0)];
    TraceLongest(x, y, f, 2, 1);
    assert Alignment(x, y, f, 2, 1, [(0, 0)]);
  }

  /** The way back starts first in x, whatever x and y are, exactly for the blocks for which
      no two elements match the same one. */
  lemma StartsFirstIff<A(!new), B(!new), V(!new)>(f: Block<A, B, V>)
    ensures (forall x: seq<A>, y: seq<B> :: StartsFirst(x, y, f, Trace(x, y, f, |x|, |y|))) <==> MatchesOne(f)
  {
    hide StartsFirst;
    if MatchesOne(f) {
      forall x: seq<A>, y: seq<B> ensures StartsFirst(x, y, f, Trace(x, y, f, |x|, |y|)) {
        StartsFirstOfOne(x, y, f);
      }
    } else {
      var a, c, b :| f(a, b).Some? && f(c, b).Some? && a != c;
      StartsLater(a, c, b, f);
    }
  }

  lemma StartsLater<A, B, V>(a: A, c: A, b: B, f: Block<A, B, V>)
    requires f(a, b).Some? && f(c, b).Some? && a != c
    ensures !StartsFirst([a, c], [b], f, Trace([a, c], [b], f, |[a, c]|, |[b]|))
  {
    SecondOfTwo(a, c, b, f);
    assert !StandsBefore([a, c], c, 0);
  }

  /** With a block for which different elements match, another longest alignment can start
      earlier in x: the way back takes the last match it can. */
  lemma OtherBlockStartsLater()
    ensures
      var f: Block<int, int, int> := (a, b) => Some(a);
      Trace([1, 2], [3], f, 2, 1) == [(1, 0)] && Values([1, 2], [3], f, [(1, 0)]) == [2] &&
      Longest([1, 2], [3], f, 2, 1, [(0, 0)])
  {
    SecondOfTwo(1, 2, 3, (a, b) => Some(a));
  }

  // ---- The methods ------------------------------------------------------------------------------

  // The rows above i hold the lengths.
  ghost predicate Filled<A, B, V>(c: array2<nat>, x: seq<A>, y: seq<B>, f: Block<A, B, V>, i: nat)
    requires c.Length0 == |x| + 1 && c.Length1 == |y| + 1 && i <= |x| + 1
    reads c
  {
    forall k, l :: 0 <= k < i && 0 <= l <= |y| ==> c[k, l] == Length(x, y, f, k, l)
  }

  method LcsTable<A, B, V>(x: seq<A>, y: seq<B>, f: Block<A, B, V>) returns (c: array2<nat>)
    ensures c.Length0 == |x| + 1 && c.Length1 == |y| + 1
    ensures Filled(c, x, y, f, |x| + 1)
  {
    hide Length, Max;
    c := new nat[|x| + 1, |y| + 1]((i, j) => 0);
    forall j | 0 <= j <= |y| ensures Length(x, y, f, 0, j) == 0 {
      Cell(x, y, f, 0, j);
    }
    for i := 1 to |x| + 1
      invariant Filled(c, x, y, f, i)
      invariant forall k :: i <= k <= |x| ==> c[k, 0] == 0
    {
      Cell(x, y, f, i, 0);
      for j := 1 to |y| + 1
        invariant Filled(c, x, y, f, i)
        invariant forall l :: 0 <= l < j ==> c[i, l] == Length(x, y, f, i, l)
        invariant forall k :: i <= k <= |x| ==> c[k, 0] == 0
      {
        Cell(x, y, f, i, j);
        if f(x[i - 1], y[j - 1]).Some? {
          c[i, j] := c[i - 1, j - 1] + 1;
        } else {
          c[i, j] := Max(c[i, j - 1], c[i - 1, j]);
        }
      }
    }
  }

  method LcsBacktrace<A, B, V>(c: array2<nat>, x: seq<A>, y: seq<B>, i: nat, j: nat, f: Block<A, B, V>) returns (r: seq<V>)
    requires i <= |x| && j <= |y| && c.Length0 == |x| + 1 && c.Length1 == |y| + 1
    requires Filled(c, x, y, f, |x| + 1)
    ensures Alignment(x, y, f, |x|, |y|, Trace(x, y, f, i, j))
    ensures r == Values(x, y, f, Trace(x, y, f, i, j))
    decreases i + j
  {
    hide Alignment, Length, Values;
    TraceAligns(x, y, f, i, j);
    Wider(x, y, f, i, j, |x|, |y|, Trace(x, y, f, i, j));
    if i == 0 || j == 0 {
      return [];
    }
    var v := f(x[i - 1], y[j - 1]);
    if v.Some? {
      TraceAligns(x, y, f, i - 1, j - 1);
      Extend(x, y, f, i - 1, j - 1, Trace(x, y, f, i - 1, j - 1));
      r := LcsBacktrace(c, x, y, i - 1, j - 1, f);
      return r + [v.value];
    }
    if c[i, j - 1] > c[i - 1, j] {
      r := LcsBacktrace(c, x, y, i, j - 1, f);
    } else {
      r := LcsBacktrace(c, x, y, i - 1, j, f);
    }
  }

  /** The values of a longest alignment of x and y. No other starts in x in front of all that
      could stand at its start, and so it starts first when no two elements match the same one. */
  method LongestCommon<A(!new), B(!new), V>(x: seq<A>, y: seq<B>, f: Block<A, B, V>) returns (r: seq<V>)
    ensures exists ps: Pairs ::
      Longest(x, y, f, |x|, |y|, ps) && r == Values(x, y, f, ps) &&
      (forall qs: Pairs :: Longest(x, y, f, |x|, |y|, qs) && qs != [] ==> StartsBy(x, y, f, ps, qs[0].0)) &&
      (MatchesOne(f) ==> StartsFirst(x, y, f, ps))
  {
    var c := LcsTable(x, y, f);
    r := LcsBacktrace(c, x, y, |x|, |y|, f);
    ghost var ps := Trace(x, y, f, |x|, |y|);
    TraceLongest(x, y, f, |x|, |y|);
    forall qs: Pairs | Longest(x, y, f, |x|, |y|, qs) && qs != [] ensures StartsBy(x, y, f, ps, qs[0].0) {
      TraceStartsFirst(x, y, f, |x|, |y|, qs);
    }
    if MatchesOne(f) {
      StartsFirstOfOne(x, y, f);
    }
  }

  // ---- Plain equality ----------------------------------------------------------------------------

  // The block for want of another one: equal elements stand for themselves, but for nil
  // and false, which Ruby takes for nothing.
  function PlainEquality<T(==)>(truthy: T -> bool): Block<T, T, T> {
    (a, b) => if a == b && truthy(a) then Some(a) else None
  }

  // Places in b for the elements of a, in order.
  ghost predicate Embedding<T>(a: seq<T>, b: seq<T>, places: seq<nat>) {
    |places| == |a| &&
    (forall k :: 0 <= k < |a| ==> places[k] < |b| && a[k] == b[places[k]]) &&
    (forall k, l :: 0 <= k < l < |a| ==> places[k] < places[l])
  }

  ghost predicate Embeds<T>(a: seq<T>, b: seq<T>) {
    exists places: seq<nat> :: Embedding(a, b, places)
  }

  lemma EmbedsMore<T>(a: seq<T>, b: seq<T>, e: T)
    requires Embeds(a, b)
    ensures Embeds(a + [e], b + [e]) && Embeds(a, b + [e])
  {
    var places: seq<nat> :| Embedding(a, b, places);
    assert Embedding(a, b + [e], places);
    assert Embedding(a + [e], b + [e], places + [|b|]);
  }

  lemma EmbedsLess<T>(a: seq<T>, b: seq<T>, d: T, e: T)
    requires Embeds(a + [d], b + [e])
    ensures Embeds(a, b)
    ensures d != e ==> Embeds(a + [d], b)
  {
    var places: seq<nat> :| Embedding(a + [d], b + [e], places);
    assert places[|a|] <= |b| && (a + [d])[|a|] == d;
    forall k | 0 <= k < |a| ensures places[k] < |b| && a[k] == b[places[k]] {
      assert (a + [d])[k] == a[k] && places[k] < places[|a|];
    }
    assert Embedding(a, b, places[..|a|]);
    if d != e {
      assert (b + [e])[|b|] == e;
      assert Embedding(a + [d], b, places);
    }
  }

  lemma EmbedsFront<T>(a: seq<T>, b: seq<T>, i: nat)
    requires i <= |a| && Embeds(a, b)
    ensures Embeds(a[..i], b)
  {
    var places: seq<nat> :| Embedding(a, b, places);
    assert Embedding(a[..i], b, places[..i]);
  }

  /** The greedy search finds an embedding exactly when there is one. */
  method Subsequence<T(==)>(seq1: seq<T>, seq2: seq<T>) returns (found: bool)
    ensures found <==> Embeds(seq1, seq2)
  {
    hide Embeds;
    var i, j := 0, 0;
    NothingEmbeds(seq1, seq2);
    while true
      invariant 0 <= i <= |seq1| && 0 <= j <= |seq2|
      invariant Embeds(seq1[..i], seq2[..j])
      invariant i < |seq1| ==> !Embeds(seq1[..i + 1], seq2[..j])
      decreases |seq2| - j
    {
      if i == |seq1| {
        assert seq1[..i] == seq1;
        EmbedsInFront(seq1, seq2, j);
        return true;
      }
      if j == |seq2| {
        assert seq2[..j] == seq2;
        if Embeds(seq1, seq2) {
          EmbedsFront(seq1, seq2, i + 1);
        }
        return false;
      }
      SubsequenceStep(seq1, seq2, i, j);
      if seq1[i] == seq2[j] {
        i := i + 1;
      }
      j := j + 1;
    }
  }

  lemma FirstPlace<T>(a: seq<T>, b: seq<T>, places: seq<nat>)
    ensures a != [] && Embedding(a[..1], b, places) ==> places[0] < |b|
  {
  }

  lemma NothingEmbeds<T>(a: seq<T>, b: seq<T>)
    ensures Embeds(a[..0], b[..0])
    ensures a != [] ==> !Embeds(a[..1], b[..0])
  {
    assert Embedding(a[..0], b[..0], []);
    forall places: seq<nat> ensures a != [] ==> !Embedding(a[..1], b[..0], places) {
      FirstPlace(a, b[..0], places);
    }
  }

  lemma EmbedsInFront<T>(a: seq<T>, b: seq<T>, j: nat)
    requires j <= |b| && Embeds(a, b[..j])
    ensures Embeds(a, b)
  {
    var places: seq<nat> :| Embedding(a, b[..j], places);
    assert Embedding(a, b, places);
  }

  lemma SubsequenceStep<T>(a: seq<T>, b: seq<T>, i: nat, j: nat)
    requires i < |a| && j < |b|
    requires Embeds(a[..i], b[..j]) && !Embeds(a[..i + 1], b[..j])
    ensures a[i] != b[j] ==> Embeds(a[..i], b[..j + 1]) && !Embeds(a[..i + 1], b[..j + 1])
    ensures a[i] == b[j] ==> Embeds(a[..i + 1], b[..j + 1]) && (i + 1 < |a| ==> !Embeds(a[..i + 2], b[..j + 1]))
  {
    hide Embeds;
    assert a[..i + 1] == a[..i] + [a[i]] && b[..j + 1] == b[..j] + [b[j]];
    EmbedsMore(a[..i], b[..j], b[j]);
    if a[i] != b[j] && Embeds(a[..i + 1], b[..j + 1]) {
      EmbedsLess(a[..i], b[..j], a[i], b[j]);
    }
    if i + 1 < |a| && Embeds(a[..i + 2], b[..j + 1]) {
      assert a[..i + 2] == a[..i + 1] + [a[i + 1]];
      EmbedsLess(a[..i + 1], b[..j], a[i + 1], b[j]);
    }
  }

  /* r is a longest of the common subsequences of x and y without nil and false, and it
     starts first in x: where another one begins, the first element of r has already been. */
  ghost predicate LongestSubsequence<T(!new)>(truthy: T -> bool, x: seq<T>, y: seq<T>, r: seq<T>) {
    Embeds(r, x) && Embeds(r, y) && (forall e :: e in r ==> truthy(e)) &&
    forall z ::
      Embeds(z, x) && Embeds(z, y) && (forall e :: e in z ==> truthy(e)) ==>
      |z| <= |r| && (|z| == |r| > 0 ==> forall places: seq<nat> :: Embedding(z, x, places) ==> StandsBefore(x, r[0], places[0]))
  }

  lemma ValuesEmbed<T>(truthy: T -> bool, x: seq<T>, y: seq<T>, ps: Pairs)
    requires Alignment(x, y, PlainEquality(truthy), |x|, |y|, ps)
    ensures
      var r := Values(x, y, PlainEquality(truthy), ps);
      Embeds(r, x) && Embeds(r, y) && forall e :: e in r ==> truthy(e)
  {
    var r := Values(x, y, PlainEquality(truthy), ps);
    assert Embedding(r, x, seq(|ps|, k requires 0 <= k < |ps| => ps[k].0));
    assert Embedding(r, y, seq(|ps|, k requires 0 <= k < |ps| => ps[k].1));
  }

  lemma CommonAligns<T>(truthy: T -> bool, x: seq<T>, y: seq<T>, z: seq<T>, inX: seq<nat>, inY: seq<nat>) returns (ps: Pairs)
    requires Embedding(z, x, inX) && Embedding(z, y, inY) && forall e :: e in z ==> truthy(e)
    ensures Alignment(x, y, PlainEquality(truthy), |x|, |y|, ps) && |ps| == |z| && (z != [] ==> ps[0].0 == inX[0])
  {
    ps := seq(|z|, k requires 0 <= k < |z| => (inX[k], inY[k]));
    forall k | 0 <= k < |z| ensures truthy(z[k]) {
      assert z[k] in z;
    }
  }

  lemma LongestAlignmentSubsequence<T(!new)>(truthy: T -> bool, x: seq<T>, y: seq<T>, ps: Pairs)
    requires Longest(x, y, PlainEquality(truthy), |x|, |y|, ps)
    requires forall qs: Pairs :: Longest(x, y, PlainEquality(truthy), |x|, |y|, qs) && qs != [] ==>
      StartsBy(x, y, PlainEquality(truthy), ps, qs[0].0)
    ensures LongestSubsequence(truthy, x, y, Values(x, y, PlainEquality(truthy), ps))
  {
    var f := PlainEquality(truthy);
    var r := Values(x, y, f, ps);
    ValuesEmbed(truthy, x, y, ps);
    forall z | Embeds(z, x) && Embeds(z, y) && forall e :: e in z ==> truthy(e)
      ensures |z| <= |r| && (|z| == |r| > 0 ==> forall places: seq<nat> :: Embedding(z, x, places) ==> StandsBefore(x, r[0], places[0]))
    {
      var inX: seq<nat> :| Embedding(z, x, inX);
      var inY: seq<nat> :| Embedding(z, y, inY);
      var _ := CommonAligns(truthy, x, y, z, inX, inY);
      if |z| == |r| > 0 {
        forall places: seq<nat> | Embedding(z, x, places) ensures StandsBefore(x, r[0], places[0]) {
          var qs := CommonAligns(truthy, x, y, z, places, inY);
          assert Longest(x, y, f, |x|, |y|, qs);
          assert StartsBy(x, y, f, ps, qs[0].0);
        }
      }
    }
  }

  /** With plain equality it is a longest common subsequence of x and y, and subsequence?
      says so. */
  method LcsPlain<T(==,!new)>(truthy: T -> bool, x: seq<T>, y: seq<T>) returns (r: seq<T>, inBoth: bool)
    ensures LongestSubsequence(truthy, x, y, r)
    ensures inBoth
  {
    r := LongestCommon(x, y, PlainEquality(truthy));
    ghost var ps: Pairs :|
      Longest(x, y, PlainEquality(truthy), |x|, |y|, ps) && r == Values(x, y, PlainEquality(truthy), ps) &&
      forall qs: Pairs :: Longest(x, y, PlainEquality(truthy), |x|, |y|, qs) && qs != [] ==>
        StartsBy(x, y, PlainEquality(truthy), ps, qs[0].0);
    LongestAlignmentSubsequence(truthy, x, y, ps);
    var inX := Subsequence(r, x);
    var inY := Subsequence(r, y);
    inBoth := inX && inY;
  }
}
