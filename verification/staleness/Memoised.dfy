// The search as the checker does it, with the answers it remembers: each search finds
// what earlier ones left, and leaves more.
module Memoised {
  import opened ImportGraph
  import opened Search

  // What the long-lived cache has of a file: its imports when it had this mtime.
  datatype Entry = Entry(mtime: int, keys: seq<Key>)

  // One answer of the short-lived cache: were the imports stale for this css time?
  datatype Stamp = Stamp(time: int, stale: bool)

  datatype Memory = Memory(entries: map<Key, Entry>, stamps: map<Key, seq<Stamp>>)

  datatype Answer = Answer(updated: bool, memory: Memory)

  function StampsOf(m: Memory, k: Key): seq<Stamp> {
    if k in m.stamps then m.stamps[k] else []
  }

  // The first stamp that decides for this css time.
  function Known(stamps: seq<Stamp>, t: int): Option<bool> {
    if stamps == [] then None
    else if stamps[0].time <= t && !stamps[0].stale then Some(false)
    else if stamps[0].time > t && stamps[0].stale then Some(true)
    else Known(stamps[1..], t)
  }

  // Setting a key of a Ruby hash: an old key keeps its place.
  function Put(stamps: seq<Stamp>, s: Stamp): (r: seq<Stamp>)
    ensures s in r
    ensures forall u :: u in r ==> u == s || u in stamps
  {
    if stamps == [] then [s]
    else if stamps[0].time == s.time then [s] + stamps[1..]
    else [stamps[0]] + Put(stamps[1..], s)
  }

  function Stamped(m: Memory, k: Key, s: Stamp): Memory {
    m.(stamps := m.stamps[k := Put(StampsOf(m, k), s)])
  }

  // The entries when the imports of k are known, None for a syntax error.
  function Looked(fs: FileSystem, entries: map<Key, Entry>, k: Key): (r: Option<map<Key, Entry>>)
    requires k in fs
    ensures r.Some? ==> k in r.value
  {
    if k in entries && entries[k].mtime >= fs[k].mtime then Some(entries)
    else if Computed(fs, k).Some? then Some(entries[k := Entry(fs[k].mtime, Computed(fs, k).value)])
    else None
  }

  /** dependency_updated? with `active` as the uris being checked. */
  function Ask(fs: FileSystem, m: Memory, active: set<string>, k: Key, t: int): Answer
    decreases Uris(fs) - active, 0, 0
  {
    if k.uri in active then Answer(true, m)
    else if k !in fs then Answer(true, m.(entries := m.entries - {k}))
    else if fs[k].mtime > t then Answer(true, m)
    else
      assert k.uri in Uris(fs);
      AskImports(fs, m, active + {k.uri}, k, t)
  }

  /** dependencies_stale? */
  function AskImports(fs: FileSystem, m: Memory, active: set<string>, k: Key, t: int): Answer
    requires k in fs
    decreases Uris(fs) - active, 2, 0
  {
    match Known(StampsOf(m, k), t)
    case Some(r) => Answer(r, m)
    case None =>
      match Looked(fs, m.entries, k)
      case None => Answer(true, m)
      case Some(entries) =>
        var a := AskAny(fs, m.(entries := entries), active, entries[k].keys, t);
        Answer(a.updated, Stamped(a.memory, k, Stamp(t, a.updated)))
  }

  // any? stops at the first import that is updated.
  function AskAny(fs: FileSystem, m: Memory, active: set<string>, deps: seq<Key>, t: int): Answer
    decreases Uris(fs) - active, 1, |deps|
  {
    if deps == [] then Answer(false, m)
    else
      var a := Ask(fs, m, active, deps[0], t);
      if a.updated then a else AskAny(fs, a.memory, active, deps[1..], t)
  }

  /** What a checker answers first. */
  function FirstAnswer(fs: FileSystem, entries: map<Key, Entry>, k: Key, t: int): bool {
    Ask(fs, Memory(entries, map[]), {}, k, t).updated
  }

  // ---- What is remembered is right ---------------------------------------------------------

  // The entries that are not older than the file hold its imports.
  ghost predicate Current(fs: FileSystem, entries: map<Key, Entry>) {
    forall k :: k in entries && k in fs && entries[k].mtime >= fs[k].mtime ==> fs[k].parse == Imports(entries[k].keys)
  }

  // Files asked for, each with a css time.
  type Asked = set<(Key, int)>

  // Someone asked for this css time or a later one, and from that file one uri is met twice.
  ghost predicate Blamed(fs: FileSystem, asked: Asked, t: int) {
    exists q :: q in asked && q.1 >= t && UriRepeats(fs, q.0)
  }

  /** The only excuses for a needless update: one uri is met twice from the file itself, or
      from a file that was asked for before for a later css time. */
  ghost predicate Excused(fs: FileSystem, asked: Asked, k: Key, t: int) {
    UriRepeats(fs, k) || exists q :: q in asked && q.1 > t && UriRepeats(fs, q.0)
  }

  // "Not stale" is always right, "stale" unless there is someone to blame.
  ghost predicate StampSound(fs: FileSystem, asked: Asked, k: Key, s: Stamp) {
    (!s.stale ==> Parsable(fs, k) && !ImportsStale(fs, k, s.time)) &&
    (s.stale ==> Stale(fs, k, s.time) || Blamed(fs, asked, s.time))
  }

  ghost predicate StampsSound(fs: FileSystem, asked: Asked, stamps: map<Key, seq<Stamp>>) {
    forall k, s :: k in stamps && s in stamps[k] ==> StampSound(fs, asked, k, s)
  }

  ghost predicate Sound(fs: FileSystem, asked: Asked, m: Memory) {
    Current(fs, m.entries) && StampsSound(fs, asked, m.stamps)
  }

  lemma StampsSoundMore(fs: FileSystem, asked: Asked, stamps: map<Key, seq<Stamp>>, q: (Key, int))
    requires StampsSound(fs, asked, stamps)
    ensures StampsSound(fs, asked + {q}, stamps)
  {
    forall k, s | k in stamps && s in stamps[k] ensures StampSound(fs, asked + {q}, k, s) {
      assert StampSound(fs, asked, k, s);
    }
  }

  function UrisOf(chain: seq<Key>): set<string> {
    set c | c in chain :: c.uri
  }

  lemma UrisOfSnoc(chain: seq<Key>, k: Key)
    ensures UrisOf(chain + [k]) == UrisOf(chain) + {k.uri}
  {
    assert forall c :: c in chain + [k] <==> c in chain || c == k;
  }

  // Reuse of an answer for another css time.
  lemma {:induction false} KnownRight(fs: FileSystem, asked: Asked, k: Key, stamps: seq<Stamp>, t: int)
    requires k in fs && fs[k].mtime <= t
    requires forall s :: s in stamps ==> StampSound(fs, asked, k, s)
    requires Known(stamps, t).Some?
    ensures Known(stamps, t) == Some(false) ==> !Stale(fs, k, t)
    ensures Known(stamps, t) == Some(true) ==> Stale(fs, k, t) || exists q :: q in asked && q.1 > t && UriRepeats(fs, q.0)
  {
    var s := stamps[0];
    assert StampSound(fs, asked, k, s);
    StaleUnfold(fs, k, t);
    if s.time <= t && !s.stale {
      if ImportsStale(fs, k, t) {
        ImportsStaleMonotone(fs, k, s.time, t);
      }
    } else if s.time > t && s.stale {
      if Stale(fs, k, s.time) {
        StaleMonotone(fs, k, t, s.time);
      }
    } else {
      KnownRight(fs, asked, k, stamps[1..], t);
    }
  }

  // The imports of a file, when they are looked up.
  lemma LookedRight(fs: FileSystem, entries: map<Key, Entry>, k: Key, t: int)
    requires Current(fs, entries) && k in fs
    ensures Looked(fs, entries, k).Some? ==>
      var r := Looked(fs, entries, k).value;
      Current(fs, r) && fs[k].parse == Imports(r[k].keys)
    ensures Looked(fs, entries, k).None? ==> Stale(fs, k, t)
  {
    if Looked(fs, entries, k).None? {
      UncomputedIsStale(fs, k, t);
    }
  }

  lemma UncomputedIsStale(fs: FileSystem, k: Key, t: int)
    requires Computed(fs, k).None?
    ensures Stale(fs, k, t)
  {
    StaleUnfold(fs, k, t);
    if Parsable(fs, k) {
      var d :| d in fs[k].parse.keys && !Parsable(fs, d);
      StaleUnfold(fs, d, t);
    }
  }

  // A uri that is active is met again.
  lemma ActiveAgain(fs: FileSystem, chain: seq<Key>, k: Key, t: int)
    requires Chain(fs, chain + [k]) && k.uri in UrisOf(chain)
    ensures Stale(fs, k, t) || UriRepeats(fs, (chain + [k])[0])
  {
    var i :| 0 <= i < |chain| && chain[i].uri == k.uri;
    var p := chain + [k];
    assert From(fs, p[0], p) && p[i] == chain[i];
    if chain[i] == k {
      ChainSuffix(fs, p, i);
      assert From(fs, k, p[i..]) && p[i..][0] == Last(p[i..]);
    }
  }

  /** A search below `chain` misses nothing that is stale, has an excuse for every needless
      update, and what it leaves is as right as what it found. */
  lemma {:induction false} AskRight(fs: FileSystem, asked: Asked, m: Memory, chain: seq<Key>, k: Key, t: int)
    requires Sound(fs, asked, m) && Chain(fs, chain + [k]) && ((chain + [k])[0], t) in asked
    ensures
      var a := Ask(fs, m, UrisOf(chain), k, t);
      Sound(fs, asked, a.memory) && (Stale(fs, k, t) ==> a.updated) &&
      (a.updated ==> Stale(fs, k, t) || Excused(fs, asked, (chain + [k])[0], t))
    decreases Uris(fs) - UrisOf(chain), 0, 0
  {
    StaleUnfold(fs, k, t);
    if k.uri in UrisOf(chain) {
      ActiveAgain(fs, chain, k, t);
    } else if k in fs && fs[k].mtime <= t {
      assert k.uri in Uris(fs);
      UrisOfSnoc(chain, k);
      ImportsRight(fs, asked, m, chain + [k], k, t);
    }
  }

  lemma {:induction false} ImportsRight(fs: FileSystem, asked: Asked, m: Memory, chain: seq<Key>, k: Key, t: int)
    requires k in fs && fs[k].mtime <= t
    requires Sound(fs, asked, m) && Chain(fs, chain) && Last(chain) == k && (chain[0], t) in asked
    ensures
      var a := AskImports(fs, m, UrisOf(chain), k, t);
      Sound(fs, asked, a.memory) && (Stale(fs, k, t) ==> a.updated) &&
      (a.updated ==> Stale(fs, k, t) || Excused(fs, asked, chain[0], t))
    decreases Uris(fs) - UrisOf(chain), 2, 0
  {
    StaleUnfold(fs, k, t);
    if Known(StampsOf(m, k), t).Some? {
      KnownRight(fs, asked, k, StampsOf(m, k), t);
    } else {
      LookedRight(fs, m.entries, k, t);
      if Looked(fs, m.entries, k).Some? {
        var entries := Looked(fs, m.entries, k).value;
        var m' := m.(entries := entries);
        AnyRight(fs, asked, m', chain, entries[k].keys, t);
        var a := AskAny(fs, m', UrisOf(chain), entries[k].keys, t);
        StampRight(fs, asked, a.memory, k, chain[0], Stamp(t, a.updated));
      }
    }
  }

  lemma StampRight(fs: FileSystem, asked: Asked, m: Memory, k: Key, root: Key, s: Stamp)
    requires Sound(fs, asked, m) && (root, s.time) in asked && Parsable(fs, k)
    requires !s.stale ==> !ImportsStale(fs, k, s.time)
    requires s.stale ==> Stale(fs, k, s.time) || Excused(fs, asked, root, s.time)
    ensures Sound(fs, asked, Stamped(m, k, s))
  {
    assert StampSound(fs, asked, k, s) by {
      if s.stale && !Stale(fs, k, s.time) && UriRepeats(fs, root) {
        assert (root, s.time).1 >= s.time && UriRepeats(fs, (root, s.time).0);
      }
    }
  }

  lemma {:induction false} AnyRight(fs: FileSystem, asked: Asked, m: Memory, chain: seq<Key>, deps: seq<Key>, t: int)
    requires Sound(fs, asked, m) && Chain(fs, chain) && (chain[0], t) in asked
    requires Parsable(fs, Last(chain)) && forall d :: d in deps ==> d in fs[Last(chain)].parse.keys
    ensures
      var a := AskAny(fs, m, UrisOf(chain), deps, t);
      Sound(fs, asked, a.memory) &&
      (!a.updated ==> forall d :: d in deps ==> !Stale(fs, d, t)) &&
      (a.updated ==> (exists d :: d in deps && Stale(fs, d, t)) || Excused(fs, asked, chain[0], t))
    decreases Uris(fs) - UrisOf(chain), 1, |deps|
  {
    if deps != [] {
      ChainSnoc(fs, chain, deps[0]);
      AskRight(fs, asked, m, chain, deps[0], t);
      AnyRight(fs, asked, Ask(fs, m, UrisOf(chain), deps[0], t).memory, chain, deps[1..], t);
    }
  }

  // ---- The first answer ------------------------------------------------------------------------

  // A chain of imports leads from k to another file with k's uri.
  ghost predicate HasTwin(fs: FileSystem, k: Key) {
    exists p :: From(fs, k, p) && Last(p).uri == k.uri && Last(p) != k
  }

  // No import of k leads to a file with this uri.
  ghost predicate FarFrom(fs: FileSystem, k: Key, uri: string) {
    forall p :: Chain(fs, p) && Parsable(fs, k) && p[0] in fs[k].parse.keys ==> Last(p).uri != uri
  }

  ghost predicate NoneLeadsTo(fs: FileSystem, stamps: map<Key, seq<Stamp>>, uri: string) {
    forall k, s :: k in stamps && s in stamps[k] && !s.stale ==> Parsable(fs, k) && FarFrom(fs, k, uri)
  }

  // Who is not on the chain, and whose imports do not lead to a uri, does not lead to it.
  lemma FarChain(fs: FileSystem, k: Key, uri: string, p: seq<Key>)
    requires FarFrom(fs, k, uri) && k.uri != uri && From(fs, k, p)
    ensures Last(p).uri != uri
  {
    if |p| > 1 {
      ChainTail(fs, p);
    }
  }

  lemma {:induction false} KnownFar(fs: FileSystem, k: Key, stamps: seq<Stamp>, uri: string, t: int)
    requires forall s :: s in stamps && !s.stale ==> Parsable(fs, k) && FarFrom(fs, k, uri)
    requires Known(stamps, t) == Some(false)
    ensures Parsable(fs, k) && FarFrom(fs, k, uri)
  {
    assert stamps[0] in stamps;
    if !(stamps[0].time <= t && !stamps[0].stale) {
      KnownFar(fs, k, stamps[1..], uri, t);
    }
  }

  /* While a uri is active the search says no only of files from which no chain leads to
     it, and what it remembers meanwhile is like that, too. */
  lemma {:induction false} AskFar(fs: FileSystem, m: Memory, active: set<string>, k: Key, t: int, uri: string)
    requires Current(fs, m.entries) && uri in active && NoneLeadsTo(fs, m.stamps, uri)
    ensures
      var a := Ask(fs, m, active, k, t);
      Current(fs, a.memory.entries) && NoneLeadsTo(fs, a.memory.stamps, uri) &&
      (!a.updated ==> forall p :: From(fs, k, p) ==> Last(p).uri != uri)
    decreases Uris(fs) - active, 0, 0
  {
    if k.uri !in active && k in fs && fs[k].mtime <= t {
      assert k.uri in Uris(fs);
      ImportsFar(fs, m, active + {k.uri}, k, t, uri);
      if FarFrom(fs, k, uri) {
        forall p | From(fs, k, p) ensures Last(p).uri != uri {
          FarChain(fs, k, uri, p);
        }
      }
    }
  }

  lemma {:induction false} ImportsFar(fs: FileSystem, m: Memory, active: set<string>, k: Key, t: int, uri: string)
    requires k in fs && Current(fs, m.entries) && uri in active && NoneLeadsTo(fs, m.stamps, uri)
    ensures
      var a := AskImports(fs, m, active, k, t);
      Current(fs, a.memory.entries) && NoneLeadsTo(fs, a.memory.stamps, uri) &&
      (!a.updated ==> Parsable(fs, k) && FarFrom(fs, k, uri))
    decreases Uris(fs) - active, 2, 0
  {
    hide FarFrom, Current;
    if Known(StampsOf(m, k), t).Some? {
      if Known(StampsOf(m, k), t) == Some(false) {
        KnownFar(fs, k, StampsOf(m, k), uri, t);
      }
    } else {
      LookedRight(fs, m.entries, k, t);
      if Looked(fs, m.entries, k).Some? {
        var entries := Looked(fs, m.entries, k).value;
        AnyFar(fs, m.(entries := entries), active, entries[k].keys, t, uri);
        var a := AskAny(fs, m.(entries := entries), active, entries[k].keys, t);
        if !a.updated {
          FarImports(fs, k, uri);
        }
        StampFar(fs, a.memory, k, Stamp(t, a.updated), uri);
      }
    }
  }

  lemma FarImports(fs: FileSystem, k: Key, uri: string)
    requires Parsable(fs, k) && forall p :: Chain(fs, p) && p[0] in fs[k].parse.keys ==> Last(p).uri != uri
    ensures FarFrom(fs, k, uri)
  {
  }

  lemma StampFar(fs: FileSystem, m: Memory, k: Key, s: Stamp, uri: string)
    requires NoneLeadsTo(fs, m.stamps, uri) && (!s.stale ==> Parsable(fs, k) && FarFrom(fs, k, uri))
    ensures NoneLeadsTo(fs, Stamped(m, k, s).stamps, uri)
  {
  }

  lemma {:induction false} AnyFar(fs: FileSystem, m: Memory, active: set<string>, deps: seq<Key>, t: int, uri: string)
    requires Current(fs, m.entries) && uri in active && NoneLeadsTo(fs, m.stamps, uri)
    ensures
      var a := AskAny(fs, m, active, deps, t);
      Current(fs, a.memory.entries) && NoneLeadsTo(fs, a.memory.stamps, uri) &&
      (!a.updated ==> forall p :: Chain(fs, p) && p[0] in deps ==> Last(p).uri != uri)
    decreases Uris(fs) - active, 1, |deps|
  {
    if deps != [] {
      AskFar(fs, m, active, deps[0], t, uri);
      AnyFar(fs, Ask(fs, m, active, deps[0], t).memory, active, deps[1..], t, uri);
      forall p | !AskAny(fs, m, active, deps, t).updated && Chain(fs, p) && p[0] in deps ensures Last(p).uri != uri {
        assert From(fs, p[0], p);
      }
    }
  }

  /** A file with a twin is active all the while its twin is looked for: a first answer is
      yes. */
  lemma TwinIsMet(fs: FileSystem, entries: map<Key, Entry>, k: Key, t: int)
    requires Current(fs, entries) && HasTwin(fs, k)
    ensures FirstAnswer(fs, entries, k, t)
  {
    if k in fs && fs[k].mtime <= t {
      ImportsFar(fs, Memory(entries, map[]), {} + {k.uri}, k, t, k.uri);
      var p :| From(fs, k, p) && Last(p).uri == k.uri && Last(p) != k;
      ChainTail(fs, p);
    }
  }

  // What a file that is not stale leads to is not stale either.
  lemma {:induction false} FreshBelow(fs: FileSystem, p: seq<Key>, i: nat, t: int)
    requires Chain(fs, p) && i < |p| && Stale(fs, p[i], t)
    ensures Stale(fs, p[0], t)
  {
    if i > 0 {
      ChainTail(fs, p);
      FreshBelow(fs, p[1..], i - 1, t);
      StaleUnfold(fs, p[0], t);
    }
  }

  // For this css time no file that is not stale has a twin.
  ghost predicate OnlyStaleHaveTwins(fs: FileSystem, t: int) {
    forall k :: HasTwin(fs, k) ==> Stale(fs, k, t)
  }

  lemma RepeatIsTwin(fs: FileSystem, k: Key, t: int)
    requires UriRepeats(fs, k) && OnlyStaleHaveTwins(fs, t)
    ensures Stale(fs, k, t)
  {
    var p: seq<Key>, i: int :| From(fs, k, p) && 0 <= i < |p| - 1 && p[i].uri == Last(p).uri && p[i] != Last(p);
    ChainSuffix(fs, p, i);
    assert From(fs, p[i], p[i..]);
    FreshBelow(fs, p, i, t);
  }

  /** First answers are right for every file exactly when no file that is not stale leads to
      another file with its own uri. */
  lemma FirstAnswersExact(fs: FileSystem, entries: map<Key, Entry>, t: int)
    requires Current(fs, entries)
    ensures (forall k :: FirstAnswer(fs, entries, k, t) == Stale(fs, k, t)) <==> OnlyStaleHaveTwins(fs, t)
  {
    forall k ensures HasTwin(fs, k) ==> FirstAnswer(fs, entries, k, t) {
      if HasTwin(fs, k) {
        TwinIsMet(fs, entries, k, t);
      }
    }
    forall k
      ensures Stale(fs, k, t) ==> FirstAnswer(fs, entries, k, t)
      ensures FirstAnswer(fs, entries, k, t) ==> Stale(fs, k, t) || UriRepeats(fs, k)
    {
      FirstAnswerRight(fs, entries, k, t);
    }
    if OnlyStaleHaveTwins(fs, t) {
      forall k | FirstAnswer(fs, entries, k, t) ensures Stale(fs, k, t) {
        if UriRepeats(fs, k) {
          RepeatIsTwin(fs, k, t);
        }
      }
    }
  }

  lemma FirstAnswerRight(fs: FileSystem, entries: map<Key, Entry>, k: Key, t: int)
    requires Current(fs, entries)
    ensures Stale(fs, k, t) ==> FirstAnswer(fs, entries, k, t)
    ensures FirstAnswer(fs, entries, k, t) ==> Stale(fs, k, t) || UriRepeats(fs, k)
    ensures FirstAnswer(fs, entries, k, t) ==> Updated(fs, {}, k, t)
  {
    FreshAnswerExact(fs, k, t);
    assert Chain(fs, [] + [k]);
    assert UrisOf([]) == {};
    AskRight(fs, {(k, t)}, Memory(entries, map[]), [], k, t);
  }

  // ---- Runs of queries ---------------------------------------------------------------------------

  // Is the stylesheet of this css time (None: there is no css file) up to date?
  datatype Query = Query(template: Key, cssMtime: Option<int>)

  datatype Replies = Replies(answers: seq<bool>, memory: Memory)

  function AskQuery(fs: FileSystem, m: Memory, q: Query): Answer {
    match q.cssMtime
    case None => Answer(true, m)
    case Some(t) => Ask(fs, m, {}, q.template, t)
  }

  /** The answers of a checker that is asked one query after the other. */
  function AskAll(fs: FileSystem, m: Memory, queries: seq<Query>): (r: Replies)
    ensures |r.answers| == |queries|
    decreases |queries|
  {
    if queries == [] then Replies([], m)
    else
      var a := AskQuery(fs, m, queries[0]);
      var rest := AskAll(fs, a.memory, queries[1..]);
      Replies([a.updated] + rest.answers, rest.memory)
  }

  function AskedBy(queries: seq<Query>): Asked {
    set q | q in queries && q.cssMtime.Some? :: (q.template, q.cssMtime.value)
  }

  // A missed update never happens, a needless one only with an excuse.
  ghost predicate Right(fs: FileSystem, asked: Asked, q: Query, answer: bool) {
    match q.cssMtime
    case None => answer
    case Some(t) =>
      (Stale(fs, q.template, t) ==> answer) &&
      (answer ==> Stale(fs, q.template, t) || Excused(fs, asked, q.template, t))
  }

  lemma QueryRight(fs: FileSystem, asked: Asked, m: Memory, q: Query)
    requires Sound(fs, asked, m)
    ensures
      var a := AskQuery(fs, m, q);
      Right(fs, asked, q, a.updated) && Sound(fs, asked + AskedBy([q]), a.memory)
  {
    if q.cssMtime.Some? {
      var now := (q.template, q.cssMtime.value);
      assert AskedBy([q]) == {now} by {
        assert q in [q];
      }
      StampsSoundMore(fs, asked, m.stamps, now);
      assert Chain(fs, [] + [q.template]) && UrisOf([]) == {};
      AskRight(fs, asked + {now}, m, [], q.template, q.cssMtime.value);
    } else {
      assert AskedBy([q]) == {};
      assert asked + {} == asked;
    }
  }

  /** Whatever a checker was asked before, it misses no update, and a needless one needs a
      file from which one uri is met twice: the one asked for, or one that was asked for
      before for a later css time. */
  lemma {:induction false} AskAllRight(fs: FileSystem, asked: Asked, m: Memory, queries: seq<Query>)
    requires Sound(fs, asked, m)
    ensures
      var r := AskAll(fs, m, queries);
      Sound(fs, asked + AskedBy(queries), r.memory) &&
      forall j :: 0 <= j < |queries| ==> Right(fs, asked + AskedBy(queries[..j]), queries[j], r.answers[j])
    decreases |queries|
  {
    hide Right, AskQuery, Sound, AskedBy;
    assert AskedBy([]) == {} by {
      NothingAsked();
    }
    if queries == [] {
      assert asked + {} == asked;
    } else {
      var q, rest := queries[0], queries[1..];
      var a := AskQuery(fs, m, q);
      QueryRight(fs, asked, m, q);
      AskAllRight(fs, asked + AskedBy([q]), a.memory, rest);
      AskedByCons(q, rest, asked);
      assert queries == [q] + rest;
      forall j | 0 <= j < |queries|
        ensures Right(fs, asked + AskedBy(queries[..j]), queries[j], AskAll(fs, m, queries).answers[j])
      {
        if j == 0 {
          assert queries[..0] == [] && asked + {} == asked;
        } else {
          assert queries[..j] == [q] + rest[..j - 1];
          AskedByCons(q, rest[..j - 1], asked);
        }
      }
    }
  }

  lemma NothingAsked()
    ensures AskedBy([]) == {}
  {
  }

  lemma AskedByCons(q: Query, rest: seq<Query>, asked: Asked)
    ensures asked + AskedBy([q]) + AskedBy(rest) == asked + AskedBy([q] + rest)
  {
    assert forall x :: x in [q] + rest <==> x in [q] || x in rest;
  }

  // No query is for an earlier css time than one before it.
  predicate TimesRise(queries: seq<Query>) {
    forall i, j :: 0 <= i < j < |queries| && queries[i].cssMtime.Some? && queries[j].cssMtime.Some? ==>
      queries[i].cssMtime.value <= queries[j].cssMtime.value
  }

  ghost predicate Exact(fs: FileSystem, q: Query, answer: bool) {
    answer <==> q.cssMtime.None? || Stale(fs, q.template, q.cssMtime.value)
  }

  ghost predicate AllExact(fs: FileSystem, entries: map<Key, Entry>, queries: seq<Query>) {
    var answers := AskAll(fs, Memory(entries, map[]), queries).answers;
    forall j :: 0 <= j < |queries| ==> Exact(fs, queries[j], answers[j])
  }

  /** The new checkers that answer every run of queries with rising css times rightly are
      those of the file systems where a file leads to another one of its own uri only when
      it is stale for all css times. */
  lemma RisingRunsExact(fs: FileSystem, entries: map<Key, Entry>)
    requires Current(fs, entries)
    ensures (forall queries :: TimesRise(queries) ==> AllExact(fs, entries, queries)) <==>
      forall t :: OnlyStaleHaveTwins(fs, t)
  {
    if forall t :: OnlyStaleHaveTwins(fs, t) {
      forall queries | TimesRise(queries) ensures AllExact(fs, entries, queries) {
        RisingRunExact(fs, entries, queries);
      }
    }
    if forall queries :: TimesRise(queries) ==> AllExact(fs, entries, queries) {
      forall t, k | HasTwin(fs, k) ensures Stale(fs, k, t) {
        TwinIsMet(fs, entries, k, t);
        var one := [Query(k, Some(t))];
        assert TimesRise(one);
        assert Exact(fs, one[0], AskAll(fs, Memory(entries, map[]), one).answers[0]);
      }
    }
  }

  lemma RisingRunExact(fs: FileSystem, entries: map<Key, Entry>, queries: seq<Query>)
    requires Current(fs, entries) && TimesRise(queries) && forall t :: OnlyStaleHaveTwins(fs, t)
    ensures AllExact(fs, entries, queries)
  {
    AskAllRight(fs, {}, Memory(entries, map[]), queries);
    var answers := AskAll(fs, Memory(entries, map[]), queries).answers;
    forall j | 0 <= j < |queries| ensures Exact(fs, queries[j], answers[j]) {
      assert Right(fs, {} + AskedBy(queries[..j]), queries[j], answers[j]);
      if queries[j].cssMtime.Some? && UriRepeats(fs, queries[j].template) {
        RepeatIsTwin(fs, queries[j].template, queries[j].cssMtime.value);
      }
    }
  }

  // Where uris tell files apart no uri is met twice, and nothing needs an excuse.
  lemma ApartNoExcuse(fs: FileSystem, asked: Asked, k: Key, t: int)
    requires UrisTellFilesApart(fs)
    ensures !Excused(fs, asked, k, t) && !UriRepeats(fs, k)
  {
    forall q ensures !UriRepeats(fs, q) {
      if UriRepeats(fs, q) {
        var p: seq<Key>, i: int :| From(fs, q, p) && 0 <= i < |p| - 1 && p[i].uri == Last(p).uri && p[i] != Last(p);
        ChainSuffix(fs, p, i);
      }
    }
  }
}
