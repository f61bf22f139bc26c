/**
 * The per-station aggregate (the `City` record) and what a sequence of
 * readings should aggregate to. Values are tenths, as the parser returns them.
 */
module Aggregate {
  import opened Bytes
  import opened FixedPoint

  /** A station name: the bytes before the ';'. */
  type Key = seq<byte>

  /** The City record: running minimum, maximum, sum and count of one station. */
  datatype City = City(name: Key, min: int, max: int, sum: int, count: int)

  /** An aggregation table, the Go map from name to *City. */
  type Table = map<Key, City>

  /** One `key;value\n` line of the input. */
  datatype Record = Record(key: Key, value: seq<byte>)

  predicate WellFormedRecord(r: Record) {
    && |r.key| > 0
    && (forall j :: 0 <= j < |r.key| ==> r.key[j] != SEMI && r.key[j] != NL)
    && ValueShape(r.value)
  }

  predicate WellFormed(recs: seq<Record>) {
    forall i :: 0 <= i < |recs| ==> WellFormedRecord(recs[i])
  }

  /** The reading of a record, in tenths. */
  function Reading(r: Record): (v: int)
    requires WellFormedRecord(r)
    ensures -999 <= v <= 999
  {
    ParseInRange(r.value);
    ParseTemp(r.value)
  }

  /**
   * Folding one reading into a table, as the worker does for each record:
   * a new key gets a fresh aggregate with count 1; an existing one has its
   * minimum and maximum widened, the reading added and its count incremented.
   */
  function Observe(t: Table, key: Key, v: int): (r: Table)
    ensures r.Keys == t.Keys + {key}
    ensures forall k :: k in t && k != key ==> r[k] == t[k]
  {
    if key in t then
      var c := t[key];
      t[key := City(c.name, if v < c.min then v else c.min, if v > c.max then v else c.max, c.sum + v, c.count + 1)]
    else
      t[key := City(key, v, v, v, 1)]
  }

  /** The table that folding the records in order produces. */
  function Summarize(recs: seq<Record>): Table
    requires WellFormed(recs)
  {
    if recs == [] then map[]
    else
      var last := recs[|recs| - 1];
      Observe(Summarize(recs[..|recs| - 1]), last.key, Reading(last))
  }

  /** The readings of one key, in input order: the reference the aggregates are checked against. */
  function Readings(recs: seq<Record>, key: Key): seq<int>
    requires WellFormed(recs)
  {
    if recs == [] then []
    else
      var last := recs[|recs| - 1];
      Readings(recs[..|recs| - 1], key) + (if last.key == key then [Reading(last)] else [])
  }

  function Least(xs: seq<int>): (m: int)
    requires |xs| > 0
    ensures m in xs
    ensures forall i :: 0 <= i < |xs| ==> m <= xs[i]
  {
    if |xs| == 1 then xs[0]
    else
      var m := Least(xs[..|xs| - 1]);
      assert forall i :: 0 <= i < |xs| - 1 ==> xs[..|xs| - 1][i] == xs[i];
      if xs[|xs| - 1] < m then xs[|xs| - 1] else m
  }

  function Greatest(xs: seq<int>): (m: int)
    requires |xs| > 0
    ensures m in xs
    ensures forall i :: 0 <= i < |xs| ==> xs[i] <= m
  {
    if |xs| == 1 then xs[0]
    else
      var m := Greatest(xs[..|xs| - 1]);
      assert forall i :: 0 <= i < |xs| - 1 ==> xs[..|xs| - 1][i] == xs[i];
      if xs[|xs| - 1] > m then xs[|xs| - 1] else m
  }

  function Total(xs: seq<int>): int {
    if xs == [] then 0 else Total(xs[..|xs| - 1]) + xs[|xs| - 1]
  }

  /** What the summary of a key is, in terms of its readings. */
  predicate Summarizes(t: Table, key: Key, rs: seq<int>) {
    && (key in t <==> |rs| > 0)
    && (key in t ==> t[key] == City(key, Least(rs), Greatest(rs), Total(rs), |rs|))
  }

  /** One fold step keeps a key's aggregate equal to the statistics of its readings. */
  lemma ObserveSummarizes(t: Table, key: Key, rs: seq<int>, k: Key, v: int)
    requires Summarizes(t, key, rs)
    ensures Summarizes(Observe(t, k, v), key, rs + (if k == key then [v] else []))
  {
    if k == key {
      var rs' := rs + [v];
      assert rs'[..|rs'| - 1] == rs;
      if key !in t {
        assert rs' == [v];
      }
    } else {
      assert rs + [] == rs;
    }
  }

  /**
   * The table holds exactly the keys that have readings, and each aggregate
   * is the minimum, maximum, exact sum and number of that key's readings.
   */
  lemma {:induction false} SummarizeIsReadings(recs: seq<Record>, key: Key)
    requires WellFormed(recs)
    ensures key in Summarize(recs) <==> |Readings(recs, key)| > 0
    ensures key in Summarize(recs) ==>
      var rs := Readings(recs, key);
      Summarize(recs)[key] == City(key, Least(rs), Greatest(rs), Total(rs), |rs|)
  {
    if recs != [] {
      var init := recs[..|recs| - 1];
      var last := recs[|recs| - 1];
      assert WellFormed(init);
      SummarizeIsReadings(init, key);
      ObserveSummarizes(Summarize(init), key, Readings(init, key), last.key, Reading(last));
    }
  }

  /** The table's keys are exactly the keys of the records. */
  lemma {:induction false} SummarizeKeys(recs: seq<Record>)
    requires WellFormed(recs)
    ensures forall k :: k in Summarize(recs) <==> exists i :: 0 <= i < |recs| && recs[i].key == k
  {
    if recs != [] {
      var init := recs[..|recs| - 1];
      var last := recs[|recs| - 1];
      assert WellFormed(init);
      SummarizeKeys(init);
      assert Summarize(recs).Keys == Summarize(init).Keys + {last.key};
      forall k ensures k in Summarize(recs) <==> exists i :: 0 <= i < |recs| && recs[i].key == k {
        if k in Summarize(init) {
          var i :| 0 <= i < |init| && init[i].key == k;
          assert recs[i].key == k;
        } else if k == last.key {
          assert recs[|recs| - 1].key == k;
        } else {
          forall i | 0 <= i < |recs| ensures recs[i].key != k {
            if i < |init| { assert recs[i] == init[i]; }
          }
        }
      }
    }
  }

  /** The City invariant: count at least 1, min <= max, and the sum between count*min and count*max. */
  predicate ValidEntry(key: Key, c: City) {
    && c.name == key
    && c.count >= 1
    && -999 <= c.min <= c.max <= 999
    && c.count * c.min <= c.sum <= c.count * c.max
  }

  predicate ValidTable(t: Table) {
    forall k :: k in t ==> ValidEntry(k, t[k])
  }

  lemma MulMonotone(c: int, a: int, b: int)
    requires c >= 0 && a <= b
    ensures c * a <= c * b
  {
  }

  /** Folding in a reading in range keeps the City invariant of the entry it touches. */
  lemma ObserveEntryValid(t: Table, key: Key, v: int)
    requires key in t ==> ValidEntry(key, t[key])
    requires -999 <= v <= 999
    ensures ValidEntry(key, Observe(t, key, v)[key])
  {
    if key in t {
      var c := t[key];
      var n := c.count;
      var lo := if v < c.min then v else c.min;
      var hi := if v > c.max then v else c.max;
      MulMonotone(n, lo, c.min);
      MulMonotone(n, c.max, hi);
      assert (n + 1) * lo == n * lo + lo;
      assert (n + 1) * hi == n * hi + hi;
      assert n * lo + lo <= c.sum + v <= n * hi + hi;
    }
  }

  /** Folding in a reading in range keeps the City invariant of every entry. */
  lemma ObservePreservesValid(t: Table, key: Key, v: int)
    requires ValidTable(t) && -999 <= v <= 999
    ensures ValidTable(Observe(t, key, v))
  {
    ObserveEntryValid(t, key, v);
  }

  /** Every aggregate of a summary satisfies the City invariant. */
  lemma {:induction false} SummarizeValid(recs: seq<Record>)
    requires WellFormed(recs)
    ensures ValidTable(Summarize(recs))
  {
    if recs != [] {
      var init := recs[..|recs| - 1];
      assert WellFormed(init);
      SummarizeValid(init);
      ObservePreservesValid(Summarize(init), recs[|recs| - 1].key, Reading(recs[|recs| - 1]));
    }
  }
}
