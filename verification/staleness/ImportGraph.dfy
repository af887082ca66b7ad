// The files a staleness check looks at, and what it is to be stale: plain
// reachability in the graph of imports.
module ImportGraph {
  datatype Option<+T> = None | Some(value: T)

  // A file is found by its uri and the importer that resolves it.
  datatype Key = Key(uri: string, importer: string)

  datatype Parse = Imports(keys: seq<Key>) | Unparsable

  datatype File = File(mtime: int, parse: Parse)

  type FileSystem = map<Key, File>

  predicate Parsable(fs: FileSystem, k: Key) {
    k in fs && fs[k].parse.Imports?
  }

  // Reasons for a file itself to make a stylesheet of css time `t` stale.
  predicate Bad(fs: FileSystem, k: Key, t: int) {
    !Parsable(fs, k) || fs[k].mtime > t
  }

  // compute_dependencies also parses the imported files, and fails with them.
  function Computed(fs: FileSystem, k: Key): Option<seq<Key>> {
    if Parsable(fs, k) && forall d :: d in fs[k].parse.keys ==> Parsable(fs, d)
    then Some(fs[k].parse.keys) else None
  }

  /** p is a chain of imports. */
  ghost predicate Chain(fs: FileSystem, p: seq<Key>) {
    p != [] && forall i :: 0 <= i < |p| - 1 ==> Parsable(fs, p[i]) && p[i + 1] in fs[p[i]].parse.keys
  }

  ghost predicate From(fs: FileSystem, k: Key, p: seq<Key>) {
    Chain(fs, p) && p[0] == k
  }

  function Last(p: seq<Key>): Key
    requires p != []
  {
    p[|p| - 1]
  }

  ghost predicate ReachesBad(fs: FileSystem, k: Key, t: int) {
    exists p :: From(fs, k, p) && Bad(fs, Last(p), t)
  }

  ghost predicate ReachesCycle(fs: FileSystem, k: Key) {
    exists p, i :: From(fs, k, p) && 0 <= i < |p| - 1 && p[i] == Last(p)
  }

  /** A file is stale for a css time when it reaches a missing, newer or unparsable file,
      or an import cycle. */
  ghost predicate Stale(fs: FileSystem, k: Key, t: int) {
    ReachesBad(fs, k, t) || ReachesCycle(fs, k)
  }

  ghost predicate ImportsStale(fs: FileSystem, k: Key, t: int) {
    Parsable(fs, k) && exists d :: d in fs[k].parse.keys && Stale(fs, d, t)
  }

  lemma ChainCons(fs: FileSystem, k: Key, p: seq<Key>)
    requires Chain(fs, p) && Parsable(fs, k) && p[0] in fs[k].parse.keys
    ensures Chain(fs, [k] + p) && Last([k] + p) == Last(p)
  {
    var q := [k] + p;
    forall i | 0 <= i < |q| - 1 ensures Parsable(fs, q[i]) && q[i + 1] in fs[q[i]].parse.keys {
      assert i > 0 ==> q[i] == p[i - 1] && q[i + 1] == p[i];
    }
  }

  lemma ChainSnoc(fs: FileSystem, p: seq<Key>, d: Key)
    requires Chain(fs, p) && Parsable(fs, Last(p)) && d in fs[Last(p)].parse.keys
    ensures Chain(fs, p + [d])
  {
    assert Chain(fs, [Last(p), d]);
    ChainJoin(fs, p, [Last(p), d]);
    assert [Last(p), d][1..] == [d];
  }

  lemma ChainTail(fs: FileSystem, p: seq<Key>)
    requires Chain(fs, p) && |p| > 1
    ensures Chain(fs, p[1..]) && Last(p[1..]) == Last(p)
    ensures Parsable(fs, p[0]) && p[1] in fs[p[0]].parse.keys
  {
    forall i | 0 <= i < |p[1..]| - 1 ensures Parsable(fs, p[1..][i]) && p[1..][i + 1] in fs[p[1..][i]].parse.keys {
      assert p[1..][i] == p[i + 1] && p[1..][i + 1] == p[i + 2];
    }
  }

  // p ends where q starts.
  lemma ChainJoin(fs: FileSystem, p: seq<Key>, q: seq<Key>)
    requires Chain(fs, p) && Chain(fs, q) && Last(p) == q[0]
    ensures Chain(fs, p + q[1..]) && Last(p + q[1..]) == Last(q)
  {
    var r := p + q[1..];
    forall i | 0 <= i < |r| - 1 ensures Parsable(fs, r[i]) && r[i + 1] in fs[r[i]].parse.keys {
      if i >= |p| - 1 {
        assert r[i] == q[i - (|p| - 1)] && r[i + 1] == q[i + 1 - (|p| - 1)];
      }
    }
  }

  lemma ChainSuffix(fs: FileSystem, p: seq<Key>, i: nat)
    requires Chain(fs, p) && i < |p|
    ensures Chain(fs, p[i..]) && Last(p[i..]) == Last(p)
  {
    forall j | 0 <= j < |p[i..]| - 1 ensures Parsable(fs, p[i..][j]) && p[i..][j + 1] in fs[p[i..][j]].parse.keys {
      assert p[i..][j] == p[i + j] && p[i..][j + 1] == p[i + j + 1];
    }
  }

  /** Staleness is decided by the file itself and its imports. */
  lemma StaleUnfold(fs: FileSystem, k: Key, t: int)
    ensures Stale(fs, k, t) <==> Bad(fs, k, t) || ImportsStale(fs, k, t)
  {
    if Bad(fs, k, t) {
      assert From(fs, k, [k]);
    }
    if ImportsStale(fs, k, t) {
      var d :| d in fs[k].parse.keys && Stale(fs, d, t);
      if ReachesBad(fs, d, t) {
        var p :| From(fs, d, p) && Bad(fs, Last(p), t);
        ChainCons(fs, k, p);
        assert From(fs, k, [k] + p);
      } else {
        var p, i :| From(fs, d, p) && 0 <= i < |p| - 1 && p[i] == Last(p);
        ChainCons(fs, k, p);
        assert From(fs, k, [k] + p) && ([k] + p)[i + 1] == Last([k] + p);
      }
    }
    if Stale(fs, k, t) && !Bad(fs, k, t) {
      if ReachesBad(fs, k, t) {
        var p :| From(fs, k, p) && Bad(fs, Last(p), t);
        ChainTail(fs, p);
        assert From(fs, p[1], p[1..]);
      } else {
        CycleBelow(fs, k);
      }
    }
  }

  // A cycle that is reached from k is reached from one of its imports.
  lemma CycleBelow(fs: FileSystem, k: Key)
    requires ReachesCycle(fs, k)
    ensures Parsable(fs, k) && exists d :: d in fs[k].parse.keys && ReachesCycle(fs, d)
  {
    var p, i :| From(fs, k, p) && 0 <= i < |p| - 1 && p[i] == Last(p);
    ChainTail(fs, p);
    var d, q := p[1], p[1..];
    if i > 0 {
      assert From(fs, d, q) && q[i - 1] == Last(q);
    } else {
      // p leads from k back to k: go round once more.
      ChainJoin(fs, q, p[..2]);
      var r := q + p[..2][1..];
      assert From(fs, d, r) && r[0] == Last(r);
    }
  }

  /** An older css time can only make more files stale. */
  lemma StaleMonotone(fs: FileSystem, k: Key, s: int, t: int)
    requires s <= t && Stale(fs, k, t)
    ensures Stale(fs, k, s)
  {
    if ReachesBad(fs, k, t) {
      var p :| From(fs, k, p) && Bad(fs, Last(p), t);
      assert Bad(fs, Last(p), s);
    }
  }

  lemma ImportsStaleMonotone(fs: FileSystem, k: Key, s: int, t: int)
    requires s <= t && ImportsStale(fs, k, t)
    ensures ImportsStale(fs, k, s)
  {
    var d :| d in fs[k].parse.keys && Stale(fs, d, t);
    StaleMonotone(fs, d, s, t);
  }

  /** No file leads by imports to another file of the same uri. So it is whenever there is
      one importer. */
  ghost predicate UrisTellFilesApart(fs: FileSystem) {
    forall p: seq<Key> :: Chain(fs, p) && p[0].uri == Last(p).uri ==> p[0] == Last(p)
  }

  // A file under check whose uri is found again below it is on a cycle.
  lemma ActiveAgainIsCycle(fs: FileSystem, chain: seq<Key>, k: Key)
    requires UrisTellFilesApart(fs) && Chain(fs, chain + [k])
    requires exists c :: c in chain && c.uri == k.uri
    ensures Stale(fs, k, 0) && ReachesCycle(fs, k)
  {
    var i :| 0 <= i < |chain| && chain[i].uri == k.uri;
    var p := (chain + [k])[i..];
    ChainSuffix(fs, chain + [k], i);
    assert p[0] == chain[i] && Last(p) == k;
    assert From(fs, k, p) && p[0] == Last(p);
  }
}
