// The search for stale imports as a recursion that remembers nothing, for any set of uris
// that are being checked already. The checker remembers answers even within one query and
// so its first answer is yes less often (Memoised.FirstAnswerRight).
module Search {
  import opened ImportGraph

  function Uris(fs: FileSystem): set<string> {
    set k | k in fs :: k.uri
  }

  function Updated(fs: FileSystem, active: set<string>, k: Key, t: int): bool
    decreases Uris(fs) - active
  {
    if k.uri in active || Bad(fs, k, t) then true
    else
      assert k.uri in Uris(fs);
      exists d :: d in fs[k].parse.keys && Updated(fs, active + {k.uri}, d, t)
  }

  // Why a chain makes the search answer "updated".
  ghost predicate Reason(fs: FileSystem, active: set<string>, t: int, p: seq<Key>)
    requires p != []
  {
    Bad(fs, Last(p), t) || Last(p).uri in active || exists i :: 0 <= i < |p| - 1 && p[i].uri == Last(p).uri
  }

  /** The search finds a reason exactly when a chain of imports leads to one: to a bad
      file, into the active set, or to a uri that is on the chain already. */
  lemma UpdatedIff(fs: FileSystem, active: set<string>, k: Key, t: int)
    ensures Updated(fs, active, k, t) <==> exists p :: From(fs, k, p) && Reason(fs, active, t, p)
  {
    if Updated(fs, active, k, t) {
      var p := FindReason(fs, active, k, t);
    }
    if exists p :: From(fs, k, p) && Reason(fs, active, t, p) {
      var p: seq<Key> :| From(fs, k, p) && Reason(fs, active, t, p);
      ReasonFound(fs, active, k, t, p);
    }
  }

  lemma {:induction false} FindReason(fs: FileSystem, active: set<string>, k: Key, t: int) returns (p: seq<Key>)
    requires Updated(fs, active, k, t)
    ensures From(fs, k, p) && Reason(fs, active, t, p)
    decreases Uris(fs) - active
  {
    if k.uri in active || Bad(fs, k, t) {
      p := [k];
    } else {
      assert k.uri in Uris(fs);
      var d :| d in fs[k].parse.keys && Updated(fs, active + {k.uri}, d, t);
      var q := FindReason(fs, active + {k.uri}, d, t);
      ChainCons(fs, k, q);
      p := [k] + q;
      if Last(q).uri == k.uri {
        assert p[0].uri == Last(p).uri;
      } else if exists i :: 0 <= i < |q| - 1 && q[i].uri == Last(q).uri {
        var i :| 0 <= i < |q| - 1 && q[i].uri == Last(q).uri;
        assert p[i + 1].uri == Last(p).uri;
      }
    }
  }

  lemma {:induction false} ReasonFound(fs: FileSystem, active: set<string>, k: Key, t: int, p: seq<Key>)
    requires From(fs, k, p) && Reason(fs, active, t, p)
    ensures Updated(fs, active, k, t)
    decreases |p|
  {
    if k.uri !in active && !Bad(fs, k, t) {
      assert |p| > 1;
      ChainTail(fs, p);
      var q := p[1..];
      if exists i :: 0 <= i < |p| - 1 && p[i].uri == Last(p).uri {
        var i :| 0 <= i < |p| - 1 && p[i].uri == Last(p).uri;
        assert i > 0 ==> q[i - 1].uri == Last(q).uri;
      }
      ReasonFound(fs, active + {k.uri}, p[1], t, q);
    }
  }

  ghost predicate UriRepeats(fs: FileSystem, k: Key) {
    exists p: seq<Key>, i: int :: From(fs, k, p) && 0 <= i < |p| - 1 && p[i].uri == Last(p).uri && p[i] != Last(p)
  }

  /** This recursion is right unless the file is not stale and one uri stands for two files
      on a chain from it. */
  lemma FreshAnswerExact(fs: FileSystem, k: Key, t: int)
    ensures Updated(fs, {}, k, t) <==> Stale(fs, k, t) || UriRepeats(fs, k)
  {
    UpdatedIff(fs, {}, k, t);
    if Updated(fs, {}, k, t) {
      var p: seq<Key> :| From(fs, k, p) && Reason(fs, {}, t, p);
      if !Bad(fs, Last(p), t) {
        var i :| 0 <= i < |p| - 1 && p[i].uri == Last(p).uri;
        assert p[i] == Last(p) || p[i] != Last(p);
      }
    }
    if ReachesBad(fs, k, t) {
      var p: seq<Key> :| From(fs, k, p) && Bad(fs, Last(p), t);
      assert Reason(fs, {}, t, p);
    }
    if ReachesCycle(fs, k) {
      var p: seq<Key>, i: int :| From(fs, k, p) && 0 <= i < |p| - 1 && p[i] == Last(p);
      assert p[i].uri == Last(p).uri;
      assert Reason(fs, {}, t, p);
    }
    if UriRepeats(fs, k) {
      var p: seq<Key>, i: int :| From(fs, k, p) && 0 <= i < |p| - 1 && p[i].uri == Last(p).uri && p[i] != Last(p);
      assert Reason(fs, {}, t, p);
    }
  }
}
