// StalenessChecker: the search with its four caches, and runs of it over a changing file
// system.
module Checker {
  import opened ImportGraph
  import opened Search
  import opened Memoised
  import opened TwinExamples

  // Over the run, whoever changes the contents of a file raises its mtime.
  ghost predicate MtimesRaised(history: seq<FileSystem>) {
    forall i, j, k :: 0 <= i < j < |history| && k in history[i] && k in history[j] ==>
      history[i][k].parse == history[j][k].parse || history[i][k].mtime < history[j][k].mtime
  }

  // The cache remembers what some file system of the run had.
  ghost predicate Remembers(entries: map<Key, Entry>, history: seq<FileSystem>) {
    forall k :: k in entries ==> exists i :: 0 <= i < |history| && Had(history[i], k, entries[k])
  }

  predicate Had(fs: FileSystem, k: Key, e: Entry) {
    k in fs && fs[k] == File(e.mtime, Imports(e.keys))
  }

  /** The class-level cache: the imports of each file, with the mtime they are from. */
  class DependencyCache {
    var entries: map<Key, Entry>

    constructor ()
      ensures entries == map[]
    {
      entries := map[];
    }
  }

  lemma RemembersMore(entries: map<Key, Entry>, history: seq<FileSystem>, fs: FileSystem)
    requires Remembers(entries, history)
    ensures Remembers(entries, history + [fs])
  {
    forall k | k in entries ensures exists i :: 0 <= i < |history| + 1 && Had((history + [fs])[i], k, entries[k]) {
      var i :| 0 <= i < |history| && Had(history[i], k, entries[k]);
      assert (history + [fs])[i] == history[i];
    }
  }

  /** An up-to-date entry holds the current imports. */
  lemma RememberedIsCurrent(entries: map<Key, Entry>, history: seq<FileSystem>, k: Key)
    requires history != [] && MtimesRaised(history) && Remembers(entries, history)
    requires k in entries && k in history[|history| - 1] && history[|history| - 1][k].mtime <= entries[k].mtime
    ensures history[|history| - 1][k].parse == Imports(entries[k].keys)
  {
    var i :| 0 <= i < |history| && Had(history[i], k, entries[k]);
  }

  lemma RememberedCurrent(entries: map<Key, Entry>, history: seq<FileSystem>)
    requires history != [] && MtimesRaised(history) && Remembers(entries, history)
    ensures Current(history[|history| - 1], entries)
  {
    var fs := history[|history| - 1];
    forall k | k in entries && k in fs && entries[k].mtime >= fs[k].mtime
      ensures fs[k].parse == Imports(entries[k].keys)
    {
      RememberedIsCurrent(entries, history, k);
    }
  }

  class StalenessChecker {
    // The files while this checker lives: the last file system of the run.
    const fs: FileSystem
    ghost const history: seq<FileSystem>
    const cache: DependencyCache
    var activelyChecking: set<string>
    var mtimes: map<Key, int>
    var dependenciesStale: map<Key, seq<Stamp>>

    // The files asked for so far, with their css times.
    ghost var asked: Asked

    // What the search finds remembered.
    ghost function Remembered(): Memory
      reads this, cache
    {
      Memory(cache.entries, dependenciesStale)
    }

    // Cached answers are right, or there is a query to blame.
    ghost predicate Valid()
      reads this, cache
    {
      history != [] && fs == history[|history| - 1] &&
      Remembers(cache.entries, history) &&
      (forall k :: k in mtimes ==> k in fs && mtimes[k] == fs[k].mtime) &&
      (MtimesRaised(history) ==> StampsSound(fs, asked, dependenciesStale))
    }

    constructor (fs: FileSystem, cache: DependencyCache, ghost earlier: seq<FileSystem>)
      requires Remembers(cache.entries, earlier)
      ensures this.fs == fs && this.cache == cache && history == earlier + [fs]
      ensures Valid() && activelyChecking == {} && asked == {} && Remembered() == Memory(cache.entries, map[])
      ensures cache.entries == old(cache.entries)
    {
      this.fs, this.cache, this.history := fs, cache, earlier + [fs];
      activelyChecking, mtimes, dependenciesStale, asked := {}, map[], map[], {};
      new;
      RemembersMore(cache.entries, earlier, fs);
    }

    // A missing file is asked for every time, and forgotten by the dependency cache.
    method Mtime(k: Key) returns (r: Option<int>)
      requires Valid()
      modifies this`mtimes, cache
      ensures Valid()
      ensures r == if k in fs then Some(fs[k].mtime) else None
      ensures cache.entries == if k in fs then old(cache.entries) else old(cache.entries) - {k}
    {
      if k in mtimes {
        return Some(mtimes[k]);
      }
      if k !in fs {
        cache.entries := cache.entries - {k};
        return None;
      }
      mtimes := mtimes[k := fs[k].mtime];
      r := Some(fs[k].mtime);
    }

    /** The imports of a file, from the cache unless they are from an older mtime; None
        stands for the syntax error of a file that has to be parsed. */
    method Dependencies(k: Key) returns (r: Option<seq<Key>>)
      requires Valid() && k in fs
      modifies this`mtimes, cache
      ensures Valid()
      ensures r == if k in old(cache.entries) && old(cache.entries)[k].mtime >= fs[k].mtime
        then Some(old(cache.entries)[k].keys) else Computed(fs, k)
      ensures
        var looked := Looked(fs, old(cache.entries), k);
        if looked.Some? then r == Some(looked.value[k].keys) && cache.entries == looked.value
        else r == None && cache.entries == old(cache.entries)
      ensures MtimesRaised(history) && r.Some? ==> fs[k].parse == Imports(r.value)
    {
      var stored := if k in cache.entries then Some(cache.entries[k]) else None;
      var m := Mtime(k);
      if stored.None? || stored.value.mtime < m.value {
        r := Computed(fs, k);
        if r.Some? {
          var e := Entry(m.value, r.value);
          assert Had(history[|history| - 1], k, e);
          cache.entries := cache.entries[k := e];
        }
      } else {
        if MtimesRaised(history) {
          RememberedIsCurrent(map[k := stored.value], history, k);
        }
        r := Some(stored.value.keys);
      }
    }

    // `chain` leads from the file the caller asked for to k; its uris are active.
    ghost predicate Checking(chain: seq<Key>, k: Key, cssMtime: int)
      reads this
    {
      activelyChecking == UrisOf(chain) &&
      (MtimesRaised(history) ==> Chain(fs, chain + [k]) && ((chain + [k])[0], cssMtime) in asked)
    }

    lemma MemorySound()
      requires Valid() && MtimesRaised(history)
      ensures Sound(fs, asked, Remembered())
    {
      RememberedCurrent(cache.entries, history);
    }

    // What the methods below promise of an answer for k in a query for `root`.
    ghost predicate Justified(root: Key, k: Key, cssMtime: int, r: bool)
      reads this
    {
      (Stale(fs, k, cssMtime) ==> r) &&
      (r ==> Stale(fs, k, cssMtime) || Excused(fs, asked, root, cssMtime)) &&
      (UrisTellFilesApart(fs) ==> r == Stale(fs, k, cssMtime))
    }

    method DependencyUpdated(k: Key, cssMtime: int, ghost chain: seq<Key>) returns (r: bool)
      requires Valid() && Checking(chain, k, cssMtime)
      modifies this, cache
      ensures Valid() && activelyChecking == old(activelyChecking) && asked == old(asked)
      ensures Answer(r, Remembered()) == Ask(fs, old(Remembered()), old(activelyChecking), k, cssMtime)
      ensures MtimesRaised(history) ==> Justified((chain + [k])[0], k, cssMtime, r)
      decreases Uris(fs) - activelyChecking, 0, 0
    {
      if MtimesRaised(history) {
        MemorySound();
        AskRight(fs, asked, Remembered(), chain, k, cssMtime);
        ApartExact((chain + [k])[0], cssMtime);
      }
      if k.uri in activelyChecking {
        return true;
      }
      ghost var before := activelyChecking;
      activelyChecking := activelyChecking + {k.uri};
      var m := Mtime(k);
      if m.None? || m.value > cssMtime {
        r := true;
      } else {
        UrisOfSnoc(chain, k);
        assert k.uri in Uris(fs);
        r := DependenciesStale(k, cssMtime, chain + [k]);
      }
      activelyChecking := activelyChecking - {k.uri};
      assert activelyChecking == before;
    }

    lemma ApartExact(root: Key, cssMtime: int)
      ensures UrisTellFilesApart(fs) ==> !Excused(fs, asked, root, cssMtime)
    {
      if UrisTellFilesApart(fs) {
        ApartNoExcuse(fs, asked, root, cssMtime);
      }
    }

    // The loop over the cached answers for a file.
    method CachedAnswer(k: Key, cssMtime: int) returns (r: Option<bool>)
      requires Valid() && k in fs && fs[k].mtime <= cssMtime
      ensures r == Known(StampsOf(Remembered(), k), cssMtime)
      ensures MtimesRaised(history) && r == Some(false) ==> !Stale(fs, k, cssMtime)
      ensures MtimesRaised(history) && r == Some(true) ==>
        Stale(fs, k, cssMtime) || exists q :: q in asked && q.1 > cssMtime && UriRepeats(fs, q.0)
      ensures MtimesRaised(history) && UrisTellFilesApart(fs) && r == Some(true) ==> Stale(fs, k, cssMtime)
    {
      var timestamps := if k in dependenciesStale then dependenciesStale[k] else [];
      if MtimesRaised(history) && Known(timestamps, cssMtime).Some? {
        KnownRight(fs, asked, k, timestamps, cssMtime);
        ApartExact(k, cssMtime);
      }
      for i := 0 to |timestamps|
        invariant Known(timestamps, cssMtime) == Known(timestamps[i..], cssMtime)
      {
        var s := timestamps[i];
        if s.time <= cssMtime && !s.stale {
          return Some(false);
        } else if s.time > cssMtime && s.stale {
          return Some(true);
        }
      }
      r := None;
    }

    method DependenciesStale(k: Key, cssMtime: int, ghost chain: seq<Key>) returns (r: bool)
      requires Valid() && k in fs && fs[k].mtime <= cssMtime
      requires chain != [] && Last(chain) == k && activelyChecking == UrisOf(chain)
      requires MtimesRaised(history) ==> Chain(fs, chain) && (chain[0], cssMtime) in asked
      modifies this, cache
      ensures Valid() && activelyChecking == old(activelyChecking) && asked == old(asked)
      ensures Answer(r, Remembered()) == AskImports(fs, old(Remembered()), old(activelyChecking), k, cssMtime)
      ensures MtimesRaised(history) ==> Justified(chain[0], k, cssMtime, r)
      decreases Uris(fs) - activelyChecking, 2, 0
    {
      if MtimesRaised(history) {
        MemorySound();
        ImportsRight(fs, asked, Remembered(), chain, k, cssMtime);
        ApartExact(chain[0], cssMtime);
      }
      var known := CachedAnswer(k, cssMtime);
      if known.Some? {
        return known.value;
      }
      var deps := Dependencies(k);
      if deps.None? {
        return true;
      }
      r := AnyUpdated(deps.value, cssMtime, chain);
      StoreAnswer(k, Stamp(cssMtime, r));
    }

    // any? stops at the first import that is stale.
    method AnyUpdated(deps: seq<Key>, cssMtime: int, ghost chain: seq<Key>) returns (r: bool)
      requires Valid() && chain != [] && activelyChecking == UrisOf(chain)
      requires MtimesRaised(history) ==>
        Chain(fs, chain) && Parsable(fs, Last(chain)) && fs[Last(chain)].parse.keys == deps && (chain[0], cssMtime) in asked
      modifies this, cache
      ensures Valid() && activelyChecking == old(activelyChecking) && asked == old(asked)
      ensures Answer(r, Remembered()) == AskAny(fs, old(Remembered()), old(activelyChecking), deps, cssMtime)
      ensures MtimesRaised(history) && !r ==> forall d :: d in deps ==> !Stale(fs, d, cssMtime)
      ensures MtimesRaised(history) && r ==>
        (exists d :: d in deps && Stale(fs, d, cssMtime)) || Excused(fs, asked, chain[0], cssMtime)
      ensures MtimesRaised(history) && UrisTellFilesApart(fs) && r ==> exists d :: d in deps && Stale(fs, d, cssMtime)
      decreases Uris(fs) - activelyChecking, 1, |deps|
    {
      if MtimesRaised(history) {
        MemorySound();
        AnyRight(fs, asked, Remembered(), chain, deps, cssMtime);
        ApartExact(chain[0], cssMtime);
      }
      for i := 0 to |deps|
        invariant Valid() && activelyChecking == old(activelyChecking) && asked == old(asked)
        invariant AskAny(fs, Remembered(), activelyChecking, deps[i..], cssMtime) ==
          AskAny(fs, old(Remembered()), old(activelyChecking), deps, cssMtime)
      {
        if MtimesRaised(history) {
          ChainSnoc(fs, chain, deps[i]);
        }
        assert deps[i..][1..] == deps[i + 1..];
        r := DependencyUpdated(deps[i], cssMtime, chain);
        if r {
          return;
        }
      }
      r := false;
    }

    // Setting a key of a Ruby hash: an old key keeps its place.
    method StoreAnswer(k: Key, s: Stamp)
      modifies this`dependenciesStale
      ensures Remembered() == Stamped(old(Remembered()), k, s)
    {
      var stamps := if k in dependenciesStale then dependenciesStale[k] else [];
      dependenciesStale := dependenciesStale[k := Put(stamps, s)];
    }

    /** The answer and what is remembered afterwards, whatever was remembered before. No update
        is missed, and a needless one has its excuse; as a first answer it is surely yes when
        a chain leads from the file to another one of its uri. */
    method StylesheetModifiedSince(template: Key, mtime: int) returns (r: bool)
      requires Valid() && activelyChecking == {}
      modifies this, cache
      ensures Valid() && activelyChecking == {} && asked == old(asked) + {(template, mtime)}
      ensures Answer(r, Remembered()) == Ask(fs, old(Remembered()), {}, template, mtime)
      ensures MtimesRaised(history) ==> Right(fs, old(asked), Query(template, Some(mtime)), r)
      ensures MtimesRaised(history) && UrisTellFilesApart(fs) ==> r == Stale(fs, template, mtime)
      ensures MtimesRaised(history) && old(dependenciesStale) == map[] && HasTwin(fs, template) ==> r
    {
      if MtimesRaised(history) {
        StampsSoundMore(fs, asked, dependenciesStale, (template, mtime));
        RememberedCurrent(cache.entries, history);
        if HasTwin(fs, template) {
          TwinIsMet(fs, cache.entries, template, mtime);
        }
      }
      asked := asked + {(template, mtime)};
      assert Chain(fs, [] + [template]) && UrisOf([]) == {};
      r := DependencyUpdated(template, mtime, []);
    }

    method StylesheetNeedsUpdate(q: Query) returns (r: bool)
      requires Valid() && activelyChecking == {}
      modifies this, cache
      ensures Valid() && activelyChecking == {} && asked == old(asked) + AskedBy([q])
      ensures Answer(r, Remembered()) == AskQuery(fs, old(Remembered()), q)
      ensures MtimesRaised(history) ==> Right(fs, old(asked), q, r)
      ensures MtimesRaised(history) && UrisTellFilesApart(fs) ==> Exact(fs, q, r)
    {
      assert AskedBy([q]) == if q.cssMtime.Some? then {(q.template, q.cssMtime.value)} else {} by {
        assert q in [q];
      }
      match q.cssMtime
      case None => r := true;
      case Some(t) => r := StylesheetModifiedSince(q.template, t);
    }
  }

  lemma MtimesRaisedPrefix(history: seq<FileSystem>, n: nat)
    requires n <= |history|
    ensures MtimesRaised(history) ==> MtimesRaised(history[..n])
  {
  }

  // What one checker is asked while the files do not change.
  datatype Session = Session(fs: FileSystem, queries: seq<Query>)

  function Files(sessions: seq<Session>): (r: seq<FileSystem>)
    ensures |r| == |sessions|
    ensures forall i :: 0 <= i < |r| ==> r[i] == sessions[i].fs
  {
    seq(|sessions|, i requires 0 <= i < |sessions| => sessions[i].fs)
  }

  // Each answer misses nothing and has its excuse in what was asked before, in this session or
  // by others.
  ghost predicate SessionRight(session: Session, asked: Asked, answers: seq<bool>) {
    |answers| == |session.queries| &&
    (forall j :: 0 <= j < |answers| ==>
      Right(session.fs, asked + AskedBy(session.queries[..j]), session.queries[j], answers[j])) &&
    (UrisTellFilesApart(session.fs) ==> forall j :: 0 <= j < |answers| ==> Exact(session.fs, session.queries[j], answers[j]))
  }

  lemma AnswersSessionRight(session: Session, asked: Asked, m: Memory)
    requires Sound(session.fs, asked, m)
    ensures SessionRight(session, asked, AskAll(session.fs, m, session.queries).answers)
  {
    var answers := AskAll(session.fs, m, session.queries).answers;
    AskAllRight(session.fs, asked, m, session.queries);
    forall j | 0 <= j < |answers| && UrisTellFilesApart(session.fs)
      ensures Exact(session.fs, session.queries[j], answers[j])
    {
      var before, q := asked + AskedBy(session.queries[..j]), session.queries[j];
      assert Right(session.fs, before, q, answers[j]);
      if q.cssMtime.Some? {
        ApartNoExcuse(session.fs, before, q.template, q.cssMtime.value);
      }
    }
  }

  // A new checker for the files as they are now.
  method FreshSession(cache: DependencyCache, session: Session, ghost earlier: seq<FileSystem>)
    returns (answers: seq<bool>)
    requires Remembers(cache.entries, earlier)
    modifies cache
    ensures Remembers(cache.entries, earlier + [session.fs])
    ensures
      var all := AskAll(session.fs, Memory(old(cache.entries), map[]), session.queries);
      answers == all.answers && cache.entries == all.memory.entries
    ensures MtimesRaised(earlier + [session.fs]) ==> SessionRight(session, {}, answers)
  {
    var checker := new StalenessChecker(session.fs, cache, earlier);
    answers := RunSession(checker, session);
  }

  /** Any queries one after the other, answered as the search with a memory answers them. */
  method RunSession(checker: StalenessChecker, session: Session) returns (answers: seq<bool>)
    requires checker.Valid() && checker.activelyChecking == {} && checker.fs == session.fs
    modifies checker, checker.cache
    ensures checker.Valid() && checker.activelyChecking == {}
    ensures Replies(answers, checker.Remembered()) == AskAll(session.fs, old(checker.Remembered()), session.queries)
    ensures MtimesRaised(checker.history) ==> SessionRight(session, old(checker.asked), answers)
  {
    hide AskAll, AskQuery, Right, Exact, SessionRight;
    if MtimesRaised(checker.history) {
      checker.MemorySound();
      AnswersSessionRight(session, checker.asked, checker.Remembered());
    }
    answers := [];
    ghost var all := AskAll(session.fs, checker.Remembered(), session.queries);
    assert session.queries[0..] == session.queries;
    for j := 0 to |session.queries|
      invariant checker.Valid() && checker.activelyChecking == {}
      invariant AnsweredSoFar(session.fs, checker.Remembered(), session.queries[j..], answers, all)
    {
      AnswerOne(session.fs, checker.Remembered(), session.queries[j..], answers, all);
      assert session.queries[j..][1..] == session.queries[j + 1..];
      var answer := checker.StylesheetNeedsUpdate(session.queries[j]);
      answers := answers + [answer];
    }
    AnsweredAll(session.fs, checker.Remembered(), answers, all);
  }

  ghost predicate AnsweredSoFar(fs: FileSystem, m: Memory, left: seq<Query>, answers: seq<bool>, all: Replies) {
    var rest := AskAll(fs, m, left);
    Replies(answers + rest.answers, rest.memory) == all
  }

  lemma AnswerOne(fs: FileSystem, m: Memory, left: seq<Query>, answers: seq<bool>, all: Replies)
    requires left != [] && AnsweredSoFar(fs, m, left, answers, all)
    ensures
      var a := AskQuery(fs, m, left[0]);
      AnsweredSoFar(fs, a.memory, left[1..], answers + [a.updated], all)
  {
    var a := AskQuery(fs, m, left[0]);
    var rest := AskAll(fs, a.memory, left[1..]);
    assert answers + ([a.updated] + rest.answers) == answers + [a.updated] + rest.answers;
  }

  lemma AnsweredAll(fs: FileSystem, m: Memory, answers: seq<bool>, all: Replies)
    requires AnsweredSoFar(fs, m, [], answers, all)
    ensures Replies(answers, m) == all
  {
    assert answers + [] == answers;
  }

  // The answers of new checkers one after the other, which share the long-lived cache.
  function SessionAnswers(entries: map<Key, Entry>, sessions: seq<Session>): (r: seq<seq<bool>>)
    ensures |r| == |sessions|
    decreases |sessions|
  {
    if sessions == [] then []
    else
      var a := AskAll(sessions[0].fs, Memory(entries, map[]), sessions[0].queries);
      [a.answers] + SessionAnswers(a.memory.entries, sessions[1..])
  }

  ghost predicate AllRight(sessions: seq<Session>, answers: seq<seq<bool>>) {
    |sessions| == |answers| && forall i :: 0 <= i < |sessions| ==> SessionRight(sessions[i], {}, answers[i])
  }

  /** Any run of checkers that share the dependency cache, over any edits that raise the
      mtimes of what they change, answers every query rightly. */
  method RunSessions(sessions: seq<Session>) returns (answers: seq<seq<bool>>)
    ensures answers == SessionAnswers(map[], sessions)
    ensures MtimesRaised(Files(sessions)) ==> AllRight(sessions, answers)
  {
    var cache := new DependencyCache();
    answers := MoreSessions(cache, sessions, []);
    assert [] + Files(sessions) == Files(sessions);
  }

  method MoreSessions(cache: DependencyCache, sessions: seq<Session>, ghost earlier: seq<FileSystem>)
    returns (answers: seq<seq<bool>>)
    requires Remembers(cache.entries, earlier)
    modifies cache
    ensures answers == SessionAnswers(old(cache.entries), sessions)
    ensures MtimesRaised(earlier + Files(sessions)) ==> AllRight(sessions, answers)
  {
    hide AskAll, SessionRight, Remembers;
    if sessions == [] {
      return [];
    }
    var first := FreshSession(cache, sessions[0], earlier);
    ghost var now := earlier + [sessions[0].fs];
    var rest := MoreSessions(cache, sessions[1..], now);
    answers := [first] + rest;
    assert now + Files(sessions[1..]) == earlier + Files(sessions);
    assert (earlier + Files(sessions))[..|now|] == now;
    MtimesRaisedPrefix(earlier + Files(sessions), |now|);
  }

  // ---- What the checker does with two files of one uri ---------------------------------------------

  /** A new checker says yes of a file that is not stale: `a` imports `b` from another importer,
      and `b` that importer's `a`. */
  method TwoImportersMislead() returns (r: bool)
    ensures r && !Stale(TWO_IMPORTERS, A, 5)
  {
    var cache := new DependencyCache();
    var checker := new StalenessChecker(TWO_IMPORTERS, cache, []);
    TwoImportersAnswer();
    r := checker.StylesheetModifiedSince(A, 5);
  }

  /** One checker is asked for `c` and then for `k` with an earlier css time: both times it
      says yes, though `k` is not stale. */
  method EarlierQueryMisled() returns (c: bool, k: bool)
    ensures c && k && Stale(AFTER_C, C, 5) && !Stale(AFTER_C, K, 4)
  {
    var cache := new DependencyCache();
    var checker := new StalenessChecker(AFTER_C, cache, []);
    AfterCStale();
    AfterCAnswer();
    c := checker.StylesheetModifiedSince(C, 5);
    k := checker.StylesheetModifiedSince(K, 4);
  }

  /** First answers of new checkers, right for all files exactly when only stale files lead to
      other files of their own uri (Memoised.FirstAnswersExact). */
  method FirstAsked(fs: FileSystem, cache: DependencyCache, ghost earlier: seq<FileSystem>, k: Key, t: int) returns (r: bool)
    requires Remembers(cache.entries, earlier)
    modifies cache
    ensures r == FirstAnswer(fs, old(cache.entries), k, t)
    ensures MtimesRaised(earlier + [fs]) ==> Current(fs, old(cache.entries))
  {
    var checker := new StalenessChecker(fs, cache, earlier);
    if MtimesRaised(checker.history) {
      RememberedCurrent(cache.entries, checker.history);
    }
    r := checker.StylesheetModifiedSince(k, t);
  }
}
