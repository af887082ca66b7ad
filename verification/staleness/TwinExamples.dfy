// File systems in which one uri stands for two files, and what the checker makes of them.
module TwinExamples {
  import opened ImportGraph
  import opened Search
  import opened Memoised

  const NOTHING: Memory := Memory(map[], map[])

  function Plain(keys: seq<Key>): File {
    File(1, Imports(keys))
  }

  // Nothing that is stale can be found in a chain of plain files.
  lemma PlainFresh(fs: FileSystem, k: Key, t: int)
    requires k in fs && fs[k].parse.Imports? && fs[k].mtime <= t
    requires forall d :: d in fs[k].parse.keys ==> !Stale(fs, d, t)
    ensures !Stale(fs, k, t)
  {
    StaleUnfold(fs, k, t);
  }

  // A file that can be read and has to be looked at.
  ghost predicate Opens(fs: FileSystem, m: Memory, active: set<string>, k: Key, t: int) {
    k.uri !in active && Computed(fs, k).Some? && fs[k].mtime <= t && k !in m.entries && k !in m.stamps
  }

  function Opened(fs: FileSystem, m: Memory, k: Key): Memory
    requires Computed(fs, k).Some?
  {
    m.(entries := m.entries[k := Entry(fs[k].mtime, fs[k].parse.keys)])
  }

  lemma OpensAsks(fs: FileSystem, m: Memory, active: set<string>, k: Key, t: int)
    requires Opens(fs, m, active, k, t)
    ensures
      var a := AskAny(fs, Opened(fs, m, k), active + {k.uri}, fs[k].parse.keys, t);
      Ask(fs, m, active, k, t) == Answer(a.updated, Stamped(a.memory, k, Stamp(t, a.updated)))
  {
    assert Looked(fs, m.entries, k) == Some(Opened(fs, m, k).entries);
    assert Known(StampsOf(m, k), t) == None;
  }

  lemma AskLeaf(fs: FileSystem, m: Memory, active: set<string>, k: Key, t: int)
    requires Opens(fs, m, active, k, t) && fs[k].parse.keys == []
    ensures Ask(fs, m, active, k, t) == Answer(false, Stamped(Opened(fs, m, k), k, Stamp(t, false)))
  {
    OpensAsks(fs, m, active, k, t);
  }

  lemma AskOne(fs: FileSystem, m: Memory, active: set<string>, k: Key, d: Key, t: int)
    requires Opens(fs, m, active, k, t) && fs[k].parse.keys == [d]
    ensures
      var a := Ask(fs, Opened(fs, m, k), active + {k.uri}, d, t);
      Ask(fs, m, active, k, t) == Answer(a.updated, Stamped(a.memory, k, Stamp(t, a.updated)))
  {
    OpensAsks(fs, m, active, k, t);
    var a := Ask(fs, Opened(fs, m, k), active + {k.uri}, d, t);
    assert AskAny(fs, Opened(fs, m, k), active + {k.uri}, [d], t) == a by {
      assert AskAny(fs, a.memory, active + {k.uri}, [d][1..], t) == Answer(false, a.memory);
    }
  }

  lemma AskTwo(fs: FileSystem, m: Memory, active: set<string>, k: Key, d: Key, e: Key, t: int)
    requires Opens(fs, m, active, k, t) && fs[k].parse.keys == [d, e]
    ensures
      var a := Ask(fs, Opened(fs, m, k), active + {k.uri}, d, t);
      var b := if a.updated then a else Ask(fs, a.memory, active + {k.uri}, e, t);
      Ask(fs, m, active, k, t) == Answer(b.updated, Stamped(b.memory, k, Stamp(t, b.updated)))
  {
    OpensAsks(fs, m, active, k, t);
    var active' := active + {k.uri};
    var a := Ask(fs, Opened(fs, m, k), active', d, t);
    var b := Ask(fs, a.memory, active', e, t);
    assert [d, e][1..] == [e];
    assert AskAny(fs, a.memory, active', [e], t) == b by {
      assert AskAny(fs, b.memory, active', [e][1..], t) == Answer(false, b.memory);
    }
  }

  lemma AskKnown(fs: FileSystem, m: Memory, active: set<string>, k: Key, t: int)
    requires k.uri !in active && k in fs && fs[k].mtime <= t && Known(StampsOf(m, k), t).Some?
    ensures Ask(fs, m, active, k, t) == Answer(Known(StampsOf(m, k), t).value, m)
  {
  }

  // ---- The cacheless search is not the checker ---------------------------------------------------

  const Q: Key := Key("q", "1")
  const K: Key := Key("k", "1")
  const X: Key := Key("x", "1")
  const X2: Key := Key("x", "2")

  // `q` imports `k` and a file of `x`'s uri, which imports `k`; `k` imports `x`.
  const HELPED: FileSystem := map[Q := Plain([K, X2]), K := Plain([X]), X := Plain([]), X2 := Plain([K])]

  lemma HelpedFresh()
    ensures !Stale(HELPED, Q, 5)
  {
    PlainFresh(HELPED, X, 5);
    PlainFresh(HELPED, K, 5);
    PlainFresh(HELPED, X2, 5);
    PlainFresh(HELPED, Q, 5);
  }

  lemma HelpedUpdated()
    ensures Updated(HELPED, {}, Q, 5)
  {
    var p := [Q, X2, K, X];
    assert From(HELPED, Q, p) && p[1].uri == Last(p).uri;
    UpdatedIff(HELPED, {}, Q, 5);
  }

  // The checker has been to `k` when it comes to it again.
  lemma HelpedAnswer()
    ensures !FirstAnswer(HELPED, map[], Q, 5)
  {
    var m := Opened(HELPED, NOTHING, Q);
    AskLeaf(HELPED, Opened(HELPED, m, K), {"q"} + {"k"}, X, 5);
    AskOne(HELPED, m, {"q"}, K, X, 5);
    var m' := Ask(HELPED, m, {"q"}, K, 5).memory;
    AskKnown(HELPED, Opened(HELPED, m', X2), {"q"} + {"x"}, K, 5);
    AskOne(HELPED, m', {"q"}, X2, K, 5);
    assert {} + {"q"} == {"q"};
    AskTwo(HELPED, NOTHING, {}, Q, K, X2, 5);
  }

  /** The search without a memory takes two files of one uri for a cycle, where the checker
      answers rightly. */
  lemma MemoryHelps()
    ensures Updated(HELPED, {}, Q, 5) && !FirstAnswer(HELPED, map[], Q, 5) && !Stale(HELPED, Q, 5)
  {
    HelpedFresh();
    HelpedUpdated();
    HelpedAnswer();
  }

  // ---- Two files of one uri mislead the checker -----------------------------------------------------

  const A: Key := Key("a", "1")
  const B: Key := Key("b", "2")
  const A2: Key := Key("a", "2")

  // `a` imports `b` from another importer, and `b` that importer's `a`.
  const TWO_IMPORTERS: FileSystem := map[A := Plain([B]), B := Plain([A2]), A2 := Plain([])]

  /** Nothing is stale, and a first answer is yes. */
  lemma TwoImportersAnswer()
    ensures FirstAnswer(TWO_IMPORTERS, map[], A, 5) && !Stale(TWO_IMPORTERS, A, 5)
  {
    PlainFresh(TWO_IMPORTERS, A2, 5);
    PlainFresh(TWO_IMPORTERS, B, 5);
    PlainFresh(TWO_IMPORTERS, A, 5);
    var p := [A, B, A2];
    assert From(TWO_IMPORTERS, A, p) && Last(p) == A2;
    TwinIsMet(TWO_IMPORTERS, map[], A, 5);
  }

  // ---- An earlier query misleads the checker --------------------------------------------------------

  const C: Key := Key("c", "1")
  const C2: Key := Key("c", "2")
  const Z: Key := Key("z", "1")

  // `c` imports `k` and something new; `k` imports another file of `c`'s uri.
  const AFTER_C: FileSystem := map[C := Plain([K, Z]), K := Plain([C2]), C2 := Plain([]), Z := File(9, Imports([]))]

  lemma AfterCStale()
    ensures Stale(AFTER_C, C, 5) && !Stale(AFTER_C, K, 4)
  {
    StaleUnfold(AFTER_C, Z, 5);
    StaleUnfold(AFTER_C, C, 5);
    PlainFresh(AFTER_C, C2, 4);
    PlainFresh(AFTER_C, K, 4);
  }

  lemma AfterCFirst()
    ensures !FirstAnswer(AFTER_C, map[], K, 4)
  {
    AskLeaf(AFTER_C, Opened(AFTER_C, NOTHING, K), {} + {"k"}, C2, 4);
    AskOne(AFTER_C, NOTHING, {}, K, C2, 4);
  }

  // A yes of `k` for the css time 5 is remembered.
  lemma AfterCAnswer()
    ensures
      var a := Ask(AFTER_C, NOTHING, {}, C, 5);
      a.updated && Ask(AFTER_C, a.memory, {}, K, 4).updated
  {
    AskOne(AFTER_C, Opened(AFTER_C, NOTHING, C), {} + {"c"}, K, C2, 5);
    AskTwo(AFTER_C, NOTHING, {}, C, K, Z, 5);
    AskKnown(AFTER_C, Ask(AFTER_C, NOTHING, {}, C, 5).memory, {}, K, 4);
  }

  const C_THEN_K: seq<Query> := [Query(C, Some(5)), Query(K, Some(4))]

  /** Asked for `c`, the checker rightly says yes. Then it says yes of `k` for an earlier css
      time, where a new checker rightly says no. */
  lemma EarlierQueryMisleads()
    ensures AskAll(AFTER_C, NOTHING, C_THEN_K).answers == [true, true]
    ensures !FirstAnswer(AFTER_C, map[], K, 4) && Stale(AFTER_C, C, 5) && !Stale(AFTER_C, K, 4)
  {
    AfterCStale();
    AfterCFirst();
    AfterCAnswer();
    assert C_THEN_K[1..] == [Query(K, Some(4))] && C_THEN_K[1..][1..] == [];
  }
}
