/**
 * Bookkeeping of the query fingerprint statistics table of db/db_fingerprint.c.
 *
 * Every normalised statement text is digested (MD5, a function parameter
 * here) into a 16-byte fingerprint, and a process-wide hash table keyed by
 * that fingerprint accumulates how often the statement ran and what it cost.
 * The table is created lazily, is capped at `maxQueries` entries, and can be
 * cleared. The table is a field of a class holding an optional map.
 */
module Fingerprint {
  import opened Wrappers

  /** FINGERPRINTSZ. */
  const FingerprintSize: int := 16

  /** The default of gbl_fingerprint_max_queries. */
  const DefaultMaxQueries: int := 1000

  type Byte = bv8

  /** A fingerprint: exactly FINGERPRINTSZ bytes. */
  type Digest = d: seq<Byte> | |d| == FingerprintSize witness seq(16, _ => 0 as Byte)

  /** struct fingerprint_track, without the cached column names. */
  datatype Track = Track(
    fingerprint: Digest,
    count: int,
    cost: int,
    time: int,
    prepTime: int,
    rows: int,
    normSql: string,
    nNormSql: int)

  /** One execution's statistics, as passed to add_fingerprint. */
  datatype Stats = Stats(cost: int, time: int, prepTime: int, rows: int)

  /** Every entry sits under its own fingerprint, records its text's length and has run at least once. */
  ghost predicate WellFormed(m: map<Digest, Track>) {
    forall d :: d in m ==> m[d].fingerprint == d && m[d].nNormSql == |m[d].normSql| && m[d].count >= 1
  }

  /**
   * calc_fingerprint: the length of the normalised text and its digest.
   * The text is a C string, so its length is that of the sequence.
   */
  function CalcFingerprint(md5: string -> Digest, zNormSql: string): (r: (int, Digest))
    ensures r.0 == |zNormSql| && |r.1| == FingerprintSize
    ensures r.1 == md5(zNormSql)
  {
    (|zNormSql|, md5(zNormSql))
  }

  /** The record a first execution creates: count 1, the given statistics and a copy of the text. */
  function NewTrack(d: Digest, zNormSql: string, s: Stats): Track {
    Track(d, 1, s.cost, s.time, s.prepTime, s.rows, zNormSql, |zNormSql|)
  }

  /** An existing record after one more execution: every counter gains this execution's value. */
  function Accumulated(t: Track, s: Stats): Track {
    t.(count := t.count + 1, cost := t.cost + s.cost, time := t.time + s.time,
       prepTime := t.prepTime + s.prepTime, rows := t.rows + s.rows)
  }

  /** The table after add_fingerprint recorded text with digest d. */
  function Recorded(m: map<Digest, Track>, cap: int, d: Digest, zNormSql: string, s: Stats): map<Digest, Track> {
    if d in m then m[d := Accumulated(m[d], s)]
    else if |m| >= cap then m
    else m[d := NewTrack(d, zNormSql, s)]
  }

  /** The digest is tracked afterwards exactly when it was tracked before or the table had room. */
  lemma RecordedKeys(m: map<Digest, Track>, cap: int, d: Digest, zNormSql: string, s: Stats)
    ensures var r := Recorded(m, cap, d, zNormSql, s);
      (d in r <==> d in m || |m| < cap) && (forall e :: e in r <==> e in m || (e == d && |m| < cap))
  {
  }

  /** Recording never lets the table grow past the larger of its size and the cap. */
  lemma {:induction false} RecordedSize(m: map<Digest, Track>, cap: int, d: Digest, zNormSql: string, s: Stats)
    ensures var r := Recorded(m, cap, d, zNormSql, s);
      |r| <= if |m| > cap then |m| else cap
  {
    if d in m {
      UpdateKeepsSize(m, d, Accumulated(m[d], s));
    } else if |m| < cap {
      InsertGrowsSize(m, d, NewTrack(d, zNormSql, s));
    }
  }

  lemma UpdateKeepsSize<K, V>(m: map<K, V>, k: K, v: V)
    requires k in m
    ensures |m[k := v]| == |m|
  {
    assert m[k := v].Keys == m.Keys;
  }

  lemma InsertGrowsSize<K, V>(m: map<K, V>, k: K, v: V)
    requires k !in m
    ensures |m[k := v]| == |m| + 1
  {
    assert m[k := v].Keys == m.Keys + {k};
  }

  /**
   * What is stored under d: a fresh record with count 1 and this
   * execution's statistics, or the old record with every counter increased
   * and its fingerprint and text kept; nothing at the cap.
   */
  lemma RecordedEntry(m: map<Digest, Track>, cap: int, d: Digest, zNormSql: string, s: Stats)
    ensures var r := Recorded(m, cap, d, zNormSql, s);
      && (d !in m && |m| < cap ==>
            (r[d].count == 1 && r[d].cost == s.cost && r[d].time == s.time
             && r[d].prepTime == s.prepTime && r[d].rows == s.rows
             && r[d].normSql == zNormSql && r[d].nNormSql == |zNormSql| && r[d].fingerprint == d))
      && (d in m ==>
            (r[d].count == m[d].count + 1 && r[d].cost == m[d].cost + s.cost
             && r[d].time == m[d].time + s.time && r[d].prepTime == m[d].prepTime + s.prepTime
             && r[d].rows == m[d].rows + s.rows
             && r[d].fingerprint == m[d].fingerprint && r[d].normSql == m[d].normSql
             && r[d].nNormSql == m[d].nNormSql))
      && (d !in m && |m| >= cap ==> r == m)
  {
  }

  /** Recording one fingerprint leaves every other fingerprint's record as it was. */
  lemma RecordedOthers(m: map<Digest, Track>, cap: int, d: Digest, zNormSql: string, s: Stats)
    ensures var r := Recorded(m, cap, d, zNormSql, s);
      forall e :: e in m && e != d ==> e in r && r[e] == m[e]
  {
  }

  /** Recording the digest of the text keeps the table well formed. */
  lemma RecordedWellFormed(md5: string -> Digest, m: map<Digest, Track>, cap: int, zNormSql: string, s: Stats)
    requires WellFormed(m)
    ensures WellFormed(Recorded(m, cap, md5(zNormSql), zNormSql, s))
  {
  }

  /**
   * Recording the same text n times into a table with room counts n
   * executions and sums the costs: the record's counters are the totals of
   * what was reported.
   */
  lemma {:induction false} RecordedRepeatedly(m: map<Digest, Track>, cap: int, d: Digest, zNormSql: string, runs: seq<Stats>)
    requires d !in m && |m| < cap && |runs| > 0
    ensures var r := RecordAll(m, cap, d, zNormSql, runs);
      d in r && r[d].count == |runs| && r[d].cost == SumCost(runs) && r[d].normSql == zNormSql
  {
    if |runs| > 1 {
      var front := runs[..|runs| - 1];
      RecordedRepeatedly(m, cap, d, zNormSql, front);
      assert SumCost(runs) == SumCost(front) + runs[|runs| - 1].cost;
    }
  }

  /** The table after recording the same text once per element of runs, in order. */
  function RecordAll(m: map<Digest, Track>, cap: int, d: Digest, zNormSql: string, runs: seq<Stats>): map<Digest, Track>
    decreases |runs|
  {
    if runs == [] then m
    else Recorded(RecordAll(m, cap, d, zNormSql, runs[..|runs| - 1]), cap, d, zNormSql, runs[|runs| - 1])
  }

  function SumCost(runs: seq<Stats>): int
    decreases |runs|
  {
    if runs == [] then 0 else SumCost(runs[..|runs| - 1]) + runs[|runs| - 1].cost
  }

  /** The process-wide table: gbl_fingerprint_hash, None until first used, and gbl_fingerprint_max_queries. */
  class FingerprintTable {
    var hash: Option<map<Digest, Track>>
    var maxQueries: int

    ghost predicate Valid()
      reads this
    {
      hash.Some? ==> WellFormed(hash.value)
    }

    /** The table before any query: not yet created, the default cap. */
    constructor ()
      ensures hash == None && maxQueries == DefaultMaxQueries && Valid()
    {
      hash := None;
      maxQueries := DefaultMaxQueries;
    }

    /**
     * add_fingerprint's table bookkeeping. The table is created if missing;
     * the text's fingerprint is then looked up and either accumulated into,
     * inserted with count 1 while the table has fewer than maxQueries
     * entries, or dropped. The digest is handed back when the caller asked
     * for it (fingerprint_out), on every path. The source asserts that a
     * found record holds the same text, which is the precondition here.
     */
    method AddFingerprint(md5: string -> Digest, zNormSql: string, s: Stats, wantOut: bool)
      returns (out: Option<Digest>)
      requires Valid()
      requires hash.Some? && md5(zNormSql) in hash.value ==> hash.value[md5(zNormSql)].normSql == zNormSql
      modifies this
      ensures Valid() && hash.Some? && maxQueries == old(maxQueries)
      ensures hash.value == Recorded(if old(hash).Some? then old(hash).value else map[], maxQueries,
                                     md5(zNormSql), zNormSql, s)
      ensures out == if wantOut then Some(md5(zNormSql)) else None
    {
      var (nNormSql, fp) := CalcFingerprint(md5, zNormSql);
      if hash.None? {
        hash := Some(map[]);
      }
      var table := hash.value;
      RecordedWellFormed(md5, table, maxQueries, zNormSql, s);
      if fp !in table {
        if |table| >= maxQueries {
          out := if wantOut then Some(fp) else None;
          return;
        }
        var t := Track(fp, 1, s.cost, s.time, s.prepTime, s.rows, zNormSql, nNormSql);
        hash := Some(table[fp := t]);
      } else {
        var t := table[fp];
        t := t.(count := t.count + 1);
        t := t.(cost := t.cost + s.cost);
        t := t.(time := t.time + s.time);
        t := t.(prepTime := t.prepTime + s.prepTime);
        t := t.(rows := t.rows + s.rows);
        hash := Some(table[fp := t]);
      }
      out := if wantOut then Some(fp) else None;
    }

    /** clear_fingerprints: the number of records held (0 when never created), and no table afterwards. */
    method ClearFingerprints() returns (count: int)
      modifies this
      ensures old(hash).None? ==> count == 0
      ensures old(hash).Some? ==> count == |old(hash).value|
      ensures hash.None? && maxQueries == old(maxQueries) && Valid()
    {
      count := 0;
      if hash.None? {
        return;
      }
      count := |hash.value|;
      hash := None;
    }
  }
}
