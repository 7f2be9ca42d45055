/**
 * The registry of queue databases kept by schemachange/sc_queues.c: the
 * array `thedb->qdbs` of its first `num_qdbs` slots, grown by realloc on
 * every append, and the hash `thedb->qdb_hash` that indexes the same queues.
 * The queue handles are opaque values of type Db here, compared by identity.
 */
module ScQueues {

  // ---------------------------------------------------------------------
  // Removal of the first occurrence, as a value
  // ---------------------------------------------------------------------

  /** s without its first x; s itself when x does not occur. */
  function RemoveFirst<Db(==)>(s: seq<Db>, x: Db): seq<Db> {
    if s == [] then []
    else if s[0] == x then s[1..]
    else [s[0]] + RemoveFirst(s[1..], x)
  }

  /**
   * Removing the first x, found at slot i, is cutting out slot i: the slots
   * before and after keep their order.
   */
  lemma {:induction false} RemoveFirstAt<Db>(s: seq<Db>, x: Db, i: int)
    requires 0 <= i < |s| && s[i] == x
    requires forall k :: 0 <= k < i ==> s[k] != x
    ensures RemoveFirst(s, x) == s[..i] + s[i + 1..]
    decreases i
  {
    if i == 0 {
      assert s[..0] + s[1..] == s[1..];
    } else {
      RemoveFirstAt(s[1..], x, i - 1);
      ConsCut(s, i - 1);
    }
  }

  /** Removing a value that does not occur changes nothing. */
  lemma {:induction false} RemoveAbsent<Db>(s: seq<Db>, x: Db)
    requires x !in s
    ensures RemoveFirst(s, x) == s
  {
    if s != [] {
      assert s == [s[0]] + s[1..];
      RemoveAbsent(s[1..], x);
    }
  }

  /** Cutting slot i + 1 out of s keeps s[0] and cuts slot i out of the rest. */
  lemma ConsCut<Db>(s: seq<Db>, i: int)
    requires 0 <= i && i + 1 < |s|
    ensures [s[0]] + (s[1..][..i] + s[1..][i + 1..]) == s[..i + 1] + s[i + 2..]
  {
    var t := s[1..];
    assert s[..i + 1] == [s[0]] + t[..i];
    assert s[i + 2..] == t[i + 1..];
  }

  /** At most one slot goes: exactly one copy of x when present, nothing otherwise. */
  lemma {:induction false} RemoveFirstMultiset<Db>(s: seq<Db>, x: Db)
    ensures multiset(RemoveFirst(s, x)) == multiset(s) - multiset{x}
    ensures |RemoveFirst(s, x)| == if x in s then |s| - 1 else |s|
  {
    if s == [] {
      return;
    }
    var t := s[1..];
    assert s == [s[0]] + t;
    if s[0] != x {
      RemoveFirstMultiset(t, x);
      ConsMinus(s[0], t, RemoveFirst(t, x), x);
    }
  }

  /** Putting a value other than x in front commutes with taking one x away. */
  lemma ConsMinus<Db>(a: Db, t: seq<Db>, r: seq<Db>, x: Db)
    requires a != x && multiset(r) == multiset(t) - multiset{x}
    ensures multiset([a] + r) == multiset([a] + t) - multiset{x}
  {
  }

  /**
   * Remove then append, as reopen_queue_dbs does: x moves to the last slot,
   * the others keep their relative order, and the set of queues is the
   * same.
   */
  lemma ReopenMovesLast<Db>(s: seq<Db>, x: Db, i: int)
    requires 0 <= i < |s| && s[i] == x
    requires forall k :: 0 <= k < i ==> s[k] != x
    ensures |RemoveFirst(s, x) + [x]| == |s| && (RemoveFirst(s, x) + [x])[|s| - 1] == x
    ensures (RemoveFirst(s, x) + [x])[..|s| - 1] == s[..i] + s[i + 1..]
    ensures multiset(RemoveFirst(s, x) + [x]) == multiset(s)
  {
    RemoveFirstAt(s, x, i);
    CutThenAppend(s, i);
  }

  /** Cutting slot i out of s and appending its value keeps the length and the multiset. */
  lemma CutThenAppend<Db>(s: seq<Db>, i: int)
    requires 0 <= i < |s|
    ensures var r := s[..i] + s[i + 1..] + [s[i]];
      |r| == |s| && r[|s| - 1] == s[i] && r[..|s| - 1] == s[..i] + s[i + 1..] && multiset(r) == multiset(s)
  {
    assert s == s[..i] + [s[i]] + s[i + 1..];
  }

  /** Every queue in the hash occupies exactly one slot of the array, and no other queue occupies any. */
  ghost predicate Mirrored<Db>(s: seq<Db>, hash: set<Db>) {
    multiset(s) == multiset(hash)
  }

  /** Appending a queue not yet registered keeps the array and the hash in step. */
  lemma AppendMirrored<Db>(s: seq<Db>, hash: set<Db>, x: Db)
    requires Mirrored(s, hash) && x !in hash
    ensures Mirrored(s + [x], hash + {x})
  {
    assert multiset(s + [x]) == multiset(s) + multiset{x};
  }

  /** Removing a queue, registered or not, keeps the array and the hash in step. */
  lemma RemoveMirrored<Db>(s: seq<Db>, hash: set<Db>, x: Db)
    requires Mirrored(s, hash)
    ensures Mirrored(RemoveFirst(s, x), hash - {x})
  {
    RemoveFirstMultiset(s, x);
  }

  // ---------------------------------------------------------------------
  // The registry
  // ---------------------------------------------------------------------

  /** The queue fields of `thedb`: qdbs, num_qdbs and qdb_hash. */
  class QueueRegistry<Db(0,==)> {
    var qdbs: array<Db>
    var numQdbs: int
    var hash: set<Db>

    ghost predicate Valid()
      reads this
    {
      0 <= numQdbs <= qdbs.Length
    }

    /** The registered queues, in slot order. */
    ghost function Live(): seq<Db>
      reads this, qdbs
      requires Valid()
    {
      qdbs[..numQdbs]
    }

    /** An empty registry. */
    constructor ()
      ensures Valid() && Live() == [] && hash == {}
    {
      qdbs := new Db[0];
      numQdbs := 0;
      hash := {};
    }

    /**
     * add_to_qdbs: the array is reallocated to num_qdbs + 1 slots (the
     * source does not check for failure), db goes into the new last slot,
     * and db is added to the hash.
     */
    method AddToQdbs(db: Db)
      requires Valid()
      modifies this
      ensures Valid() && fresh(qdbs) && qdbs.Length == numQdbs
      ensures Live() == old(Live()) + [db]
      ensures hash == old(hash) + {db}
      ensures old(Mirrored(Live(), hash)) && db !in old(hash) ==> Mirrored(Live(), hash)
    {
      if Mirrored(Live(), hash) && db !in hash {
        AppendMirrored(Live(), hash, db);
      }
      var a := new Db[numQdbs + 1];
      forall k | 0 <= k < numQdbs {
        a[k] := qdbs[k];
      }
      a[numQdbs] := db;
      qdbs := a;
      numQdbs := numQdbs + 1;
      hash := hash + {db};
    }

    /** The scan of remove_from_qdbs: the first slot holding db, or num_qdbs when there is none. */
    method FindQdb(db: Db) returns (i: int)
      requires Valid()
      ensures 0 <= i <= numQdbs
      ensures forall k :: 0 <= k < i ==> qdbs[k] != db
      ensures i < numQdbs ==> qdbs[i] == db
    {
      i := 0;
      while i < numQdbs && qdbs[i] != db
        invariant 0 <= i <= numQdbs
        invariant forall k :: 0 <= k < i ==> qdbs[k] != db
      {
        i := i + 1;
      }
    }

    /**
     * remove_from_qdbs: find the first slot holding db; if there is one,
     * drop db from the hash, shift the later slots down by one and return
     * 0; otherwise change nothing and return -1.
     */
    method RemoveFromQdbs(db: Db) returns (rc: int)
      requires Valid()
      modifies this, qdbs
      ensures Valid() && qdbs == old(qdbs)
      ensures rc == 0 || rc == -1
      ensures rc == 0 <==> db in old(Live())
      ensures rc == 0 ==> Live() == RemoveFirst(old(Live()), db) && hash == old(hash) - {db}
      ensures rc == -1 ==> Live() == old(Live()) && hash == old(hash) && numQdbs == old(numQdbs)
    {
      ghost var s := qdbs[..numQdbs];
      var i := FindQdb(db);
      if i == numQdbs {
        assert db !in s by {
          forall k | 0 <= k < |s| ensures s[k] != db { }
        }
        return -1;
      }
      ghost var r := s[..i] + s[i + 1..];
      assert RemoveFirst(s, db) == r by {
        RemoveFirstAt(s, db, i);
      }
      ShiftDown(qdbs, i, numQdbs - 1, s);
      assert qdbs[..numQdbs - 1] == r;
      numQdbs := numQdbs - 1;
      hash := hash - {db};
      return 0;
    }
  }

  /**
   * The shift loop of remove_from_qdbs: slots i+1 .. n move down by one, so
   * the first n slots hold the old first n+1 without slot i, and the slots
   * past n are untouched.
   */
  method ShiftDown<Db>(qdbs: array<Db>, i: int, n: int, ghost s: seq<Db>)
    requires 0 <= i <= n < qdbs.Length && qdbs[..n + 1] == s
    modifies qdbs
    ensures qdbs[..n] == s[..i] + s[i + 1..]
    ensures forall k :: n <= k < qdbs.Length ==> qdbs[k] == old(qdbs[k])
  {
    var j := i;
    while j < n
      invariant i <= j <= n
      invariant forall k :: 0 <= k < i ==> qdbs[k] == s[k]
      invariant forall k :: i <= k < j ==> qdbs[k] == s[k + 1]
      invariant forall k :: j <= k <= n ==> qdbs[k] == s[k]
      invariant forall k :: n < k < qdbs.Length ==> qdbs[k] == old(qdbs[k])
    {
      qdbs[j] := qdbs[j + 1];
      j := j + 1;
    }
    assert forall k :: 0 <= k < n ==> qdbs[..n][k] == (s[..i] + s[i + 1..])[k];
  }
}
