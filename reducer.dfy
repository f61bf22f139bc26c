/**
 * The reducer `processMeasurement`: every local table a worker produces is
 * folded into the global table. As written, an entry the global table
 * already has is merged with itself instead of with the local entry; the
 * corrected merge combines the two aggregates.
 */
module Reducer {
  import opened Bytes
  import opened FixedPoint
  import opened Aggregate

  const TwoTo63: int := 0x8000_0000_0000_0000
  const TwoTo64: int := 0x1_0000_0000_0000_0000

  predicate InInt64(x: int) {
    -TwoTo63 <= x < TwoTo63
  }

  /** Two's-complement wrap-around of a 64-bit signed result (Go's int64, and int on 64-bit targets). */
  function Wrap64(x: int): (r: int)
    ensures InInt64(r)
    ensures (x - r) % TwoTo64 == 0
    ensures InInt64(x) ==> r == x
  {
    (x + TwoTo63) % TwoTo64 - TwoTo63
  }

  /** Every entry is filed under its own name, as the worker's tables are. */
  predicate Coherent(t: Table) {
    forall k :: k in t ==> t[k].name == k
  }

  // ---------------------------------------------------------------------
  // Merging a local table entry by entry, for a given way of merging two
  // aggregates of the same key.
  // ---------------------------------------------------------------------

  /** The table after every key of l is merged into g: f for a key both have, insertion for a key only l has. */
  function MergeBy(g: Table, l: Table, f: (City, City) -> City): Table {
    map k | k in g.Keys + l.Keys :: if k in g && k in l then f(g[k], l[k]) else if k in g then g[k] else l[k]
  }

  /** The entries of t whose keys are in ks. */
  function Restrict(t: Table, ks: set<Key>): (r: Table)
    ensures r.Keys == t.Keys * ks
    ensures forall k :: k in r ==> r[k] == t[k]
  {
    map k | k in t.Keys * ks :: t[k]
  }

  /** The table after the one local entry (name, c) is merged into t. */
  function EntryMergedBy(t: Table, name: Key, c: City, f: (City, City) -> City): Table {
    if name in t then t[name := f(t[name], c)] else t[name := c]
  }

  /** Merging one more local entry extends the merge by that key, whatever order the keys come in. */
  lemma MergeStep(g: Table, l: Table, todo: set<Key>, name: Key, f: (City, City) -> City)
    requires name in todo && todo <= l.Keys
    ensures MergeBy(g, Restrict(l, l.Keys - (todo - {name})), f) ==
      EntryMergedBy(MergeBy(g, Restrict(l, l.Keys - todo), f), name, l[name], f)
  {
    var done := l.Keys - todo;
    assert l.Keys - (todo - {name}) == done + {name};
    var m := MergeBy(g, Restrict(l, done), f);
    var m' := MergeBy(g, Restrict(l, done + {name}), f);
    var expected := EntryMergedBy(m, name, l[name], f);
    assert name in m <==> name in g;
    assert m'.Keys == expected.Keys;
    forall k | k in m' ensures m'[k] == expected[k] {
      if k != name {
        assert k in l.Keys * done <==> k in l.Keys * (done + {name});
      }
    }
  }

  /** Before any local entry is merged the global table is as it was; after all of them it is the whole merge. */
  lemma MergeEnds(g: Table, l: Table, f: (City, City) -> City)
    ensures MergeBy(g, Restrict(l, l.Keys - l.Keys), f) == g
    ensures MergeBy(g, Restrict(l, l.Keys - {}), f) == MergeBy(g, l, f)
  {
    assert Restrict(l, l.Keys - l.Keys) == map[];
    assert Restrict(l, l.Keys - {}) == l;
  }

  /** A merge keeps every key of both tables and adds no other; a key of only one table keeps its entry. */
  lemma MergeByShape(g: Table, l: Table, f: (City, City) -> City, k: Key)
    ensures k in MergeBy(g, l, f) <==> k in g || k in l
    ensures k in g && k !in l ==> MergeBy(g, l, f)[k] == g[k]
    ensures k !in g && k in l ==> MergeBy(g, l, f)[k] == l[k]
  {
  }

  // ---------------------------------------------------------------------
  // processMeasurement as written.
  // ---------------------------------------------------------------------

  /** What the merge as written does to an entry the global table has: its count and sum are added to themselves. */
  function SelfMerged(c: City): City {
    c.(count := Wrap64(c.count + c.count), sum := Wrap64(c.sum + c.sum))
  }

  /** The merge of two aggregates as written: the local one is not used. */
  function CombineAsWritten(global: City, local: City): City {
    SelfMerged(global)
  }

  /** The global table after one local table is merged as written. */
  function MergeAsWritten(g: Table, l: Table): Table {
    MergeBy(g, l, CombineAsWritten)
  }

  /**
   * The body of processMeasurement's inner loop, as written, for the local
   * entry cityObj filed under cityName. `new` (newCity) is looked up in the
   * global table under cityObj's own name, so it is the very entry being
   * updated. Both pointers are modelled by re-reading the table after every
   * write.
   */
  method MergeEntry(global: Table, cityName: Key, cityObj: City) returns (merged: Table)
    requires cityObj.name == cityName
    ensures merged == EntryMergedBy(global, cityName, cityObj, CombineAsWritten)
  {
    merged := global;
    if cityObj.name in merged {
      var entry, newCity := merged[cityName], merged[cityObj.name];
      if newCity.min < entry.min {
        merged := merged[cityName := entry.(min := newCity.min)];
      }
      entry, newCity := merged[cityName], merged[cityObj.name];
      if newCity.max > entry.max {
        merged := merged[cityName := entry.(max := newCity.max)];
      }
      entry, newCity := merged[cityName], merged[cityObj.name];
      merged := merged[cityName := entry.(count := Wrap64(entry.count + newCity.count))];
      entry, newCity := merged[cityName], merged[cityObj.name];
      merged := merged[cityName := entry.(sum := Wrap64(entry.sum + newCity.sum))];
    } else {
      merged := merged[cityName := cityObj];
    }
  }

  /**
   * One local table merged into the global one, as written; the local
   * entries are visited in no particular order (Go's map iteration).
   */
  method MergeLocal(global: Table, local: Table) returns (merged: Table)
    requires Coherent(local)
    ensures merged == MergeAsWritten(global, local)
  {
    merged := global;
    var todo := local.Keys;
    MergeEnds(global, local, CombineAsWritten);
    while todo != {}
      invariant todo <= local.Keys
      invariant merged == MergeBy(global, Restrict(local, local.Keys - todo), CombineAsWritten)
      decreases |todo|
    {
      var cityName :| cityName in todo;
      merged := MergeEntry(merged, cityName, local[cityName]);
      MergeStep(global, local, todo, cityName, CombineAsWritten);
      todo := todo - {cityName};
    }
  }

  /**
   * For a key both tables have, the merge as written leaves the minimum,
   * maximum and name of the global entry as they were and doubles (with
   * 64-bit wrap-around) its count and sum.
   */
  lemma MergeAsWrittenExisting(g: Table, l: Table, k: Key)
    requires k in g && k in l
    ensures k in MergeAsWritten(g, l)
    ensures var c := MergeAsWritten(g, l)[k];
      && c.name == g[k].name && c.min == g[k].min && c.max == g[k].max
      && c.count == Wrap64(2 * g[k].count) && c.sum == Wrap64(2 * g[k].sum)
  {
  }

  /** Without overflow the doubling keeps the mean sum/count of the global entry, so the printed mean does not move. */
  lemma MergeAsWrittenKeepsMean(g: Table, l: Table, k: Key)
    requires k in g && k in l
    requires InInt64(2 * g[k].count) && InInt64(2 * g[k].sum)
    ensures k in MergeAsWritten(g, l)
    ensures MergeAsWritten(g, l)[k].sum * g[k].count == g[k].sum * MergeAsWritten(g, l)[k].count
  {
    var c := MergeAsWritten(g, l)[k];
    assert c.sum == 2 * g[k].sum && c.count == 2 * g[k].count;
    assert (2 * g[k].sum) * g[k].count == g[k].sum * (2 * g[k].count);
  }

  /** The values of the local table are never read: only its keys matter. */
  lemma MergeAsWrittenIgnoresLocal(g: Table, l1: Table, l2: Table)
    requires l1.Keys == l2.Keys
    ensures forall k :: k in g ==>
      (k in MergeAsWritten(g, l1) && k in MergeAsWritten(g, l2) && MergeAsWritten(g, l1)[k] == MergeAsWritten(g, l2)[k])
  {
  }

  /** A count of 2^62 doubled by the merge as written wraps to -2^63. */
  lemma MergeAsWrittenWraps(g: Table, l: Table, k: Key)
    requires k in g && k in l && g[k].count == TwoTo63 / 2
    ensures k in MergeAsWritten(g, l) && MergeAsWritten(g, l)[k].count == -TwoTo63
  {
  }

  /** The tables received so far, folded into the global table as written. */
  function ReduceAsWritten(g: Table, stream: seq<Table>): Table {
    if stream == [] then g
    else MergeAsWritten(ReduceAsWritten(g, stream[..|stream| - 1]), stream[|stream| - 1])
  }

  /** processMeasurement: every table received on computeStream is merged into cityHash, in order. */
  method ProcessMeasurement(cityHash: Table, computeStream: seq<Table>) returns (result: Table)
    requires forall i :: 0 <= i < |computeStream| ==> Coherent(computeStream[i])
    ensures result == ReduceAsWritten(cityHash, computeStream)
  {
    result := cityHash;
    for i := 0 to |computeStream|
      invariant result == ReduceAsWritten(cityHash, computeStream[..i])
    {
      assert computeStream[..i + 1][..i] == computeStream[..i];
      result := MergeLocal(result, computeStream[i]);
    }
    assert computeStream[..|computeStream|] == computeStream;
  }

  /** After the reduction the global keys are the initial ones and those of every table received. */
  lemma {:induction false} ReduceAsWrittenKeys(g: Table, stream: seq<Table>)
    ensures forall k :: k in ReduceAsWritten(g, stream) <==> k in g || exists i :: 0 <= i < |stream| && k in stream[i]
  {
    if stream != [] {
      var init := stream[..|stream| - 1];
      ReduceAsWrittenKeys(g, init);
      forall k ensures k in ReduceAsWritten(g, stream) <==> k in g || exists i :: 0 <= i < |stream| && k in stream[i] {
        MergeByShape(ReduceAsWritten(g, init), stream[|stream| - 1], CombineAsWritten, k);
        if k in ReduceAsWritten(g, init) && k !in g {
          var i :| 0 <= i < |init| && k in init[i];
          assert k in stream[i];
        }
        if exists i :: 0 <= i < |stream| && k in stream[i] {
          var i :| 0 <= i < |stream| && k in stream[i];
          if i < |init| {
            assert k in init[i];
          }
        }
      }
    }
  }

  /** An entry the global table already holds keeps its minimum and maximum through any number of merges as written. */
  lemma {:induction false} ReduceAsWrittenKeepsExtremes(g: Table, stream: seq<Table>, k: Key)
    requires k in g
    ensures k in ReduceAsWritten(g, stream)
    ensures ReduceAsWritten(g, stream)[k].min == g[k].min && ReduceAsWritten(g, stream)[k].max == g[k].max
  {
    if stream != [] {
      ReduceAsWrittenKeepsExtremes(g, stream[..|stream| - 1], k);
    }
  }

  /**
   * The merge as written loses readings: the summary of "a;1.0" merged
   * with the summary of "a;2.0" is not the summary of both lines (the
   * maximum stays 1.0 and the sum is 2.0, not 3.0).
   */
  lemma MergeAsWrittenLosesReadings()
    ensures var a := [Record(FromString("a"), FromString("1.0"))];
      var b := [Record(FromString("a"), FromString("2.0"))];
      && WellFormed(a) && WellFormed(b) && WellFormed(a + b)
      && MergeAsWritten(Summarize(a), Summarize(b)) != Summarize(a + b)
  {
    var key := FromString("a");
    var a := [Record(key, FromString("1.0"))];
    var b := [Record(key, FromString("2.0"))];
    assert (a + b)[..1] == a;
    assert a[..0] == [] && b[..0] == [];
    assert Reading(a[0]) == 10 && Reading(b[0]) == 20;
    assert Summarize(a)[key] == City(key, 10, 10, 10, 1);
    assert Summarize(b)[key] == City(key, 20, 20, 20, 1);
    assert Summarize(a + b)[key].max == 20;
    MergeAsWrittenExisting(Summarize(a), Summarize(b), key);
    assert MergeAsWritten(Summarize(a), Summarize(b))[key].max == 10;
  }

  /**
   * The merge as written depends on the order the tables arrive in, so the
   * number of workers can change the output: for one station with readings
   * 1.0 and 2.0 in two tables, one order gives max 1.0, the other max 2.0.
   */
  lemma MergeAsWrittenOrderMatters()
    ensures var key := FromString("a");
      var a := map[key := City(key, 10, 10, 10, 1)];
      var b := map[key := City(key, 20, 20, 20, 1)];
      && key in ReduceAsWritten(map[], [a, b]) && ReduceAsWritten(map[], [a, b])[key] == City(key, 10, 10, 20, 2)
      && key in ReduceAsWritten(map[], [b, a]) && ReduceAsWritten(map[], [b, a])[key] == City(key, 20, 20, 40, 2)
  {
    var key := FromString("a");
    var a := map[key := City(key, 10, 10, 10, 1)];
    var b := map[key := City(key, 20, 20, 20, 1)];
    var none: seq<Table> := [];
    assert [a, b][..1] == [a] && [b, a][..1] == [b] && [a][..0] == none && [b][..0] == none;
    assert MergeAsWritten(map[], a) == a;
    assert MergeAsWritten(map[], b) == b;
    assert ReduceAsWritten(map[], none) == map[];
    assert ReduceAsWritten(map[], [a]) == MergeAsWritten(ReduceAsWritten(map[], none), a) == a;
    assert ReduceAsWritten(map[], [b]) == MergeAsWritten(ReduceAsWritten(map[], none), b) == b;
    assert ReduceAsWritten(map[], [a, b]) == MergeAsWritten(a, b);
    assert ReduceAsWritten(map[], [b, a]) == MergeAsWritten(b, a);
    assert Wrap64(20) == 20 && Wrap64(40) == 40 && Wrap64(2) == 2;
    MergeAsWrittenExisting(a, b, key);
    MergeAsWrittenExisting(b, a, key);
  }

  // ---------------------------------------------------------------------
  // The corrected merge: the local aggregate is combined into the global one.
  // ---------------------------------------------------------------------

  /** Two aggregates of one key combined: the smaller minimum, the larger maximum, the sums and counts added. */
  function Combine(global: City, local: City): City {
    City(global.name,
      if local.min < global.min then local.min else global.min,
      if local.max > global.max then local.max else global.max,
      global.sum + local.sum,
      global.count + local.count)
  }

  /** The global table after one local table is merged as intended. */
  function Merge(g: Table, l: Table): Table {
    MergeBy(g, l, Combine)
  }

  /**
   * The corrected inner-loop body: the global entry is combined with the
   * local entry cityObj. It is the in-place rendering of EntryMergedBy with
   * the function Combine.
   */
  method MergeEntryFixed(global: Table, cityName: Key, cityObj: City) returns (merged: Table)
    ensures merged == EntryMergedBy(global, cityName, cityObj, Combine)
  {
    merged := global;
    if cityName in merged {
      var entry := merged[cityName];
      if cityObj.min < entry.min {
        entry := entry.(min := cityObj.min);
      }
      if cityObj.max > entry.max {
        entry := entry.(max := cityObj.max);
      }
      entry := entry.(count := entry.count + cityObj.count, sum := entry.sum + cityObj.sum);
      merged := merged[cityName := entry];
    } else {
      merged := merged[cityName := cityObj];
    }
  }

  /** One local table merged into the global one as intended, in any key order. */
  method MergeLocalFixed(global: Table, local: Table) returns (merged: Table)
    ensures merged == Merge(global, local)
  {
    merged := global;
    var todo := local.Keys;
    MergeEnds(global, local, Combine);
    while todo != {}
      invariant todo <= local.Keys
      invariant merged == MergeBy(global, Restrict(local, local.Keys - todo), Combine)
      decreases |todo|
    {
      var cityName :| cityName in todo;
      merged := MergeEntryFixed(merged, cityName, local[cityName]);
      MergeStep(global, local, todo, cityName, Combine);
      todo := todo - {cityName};
    }
  }

  /** Folding one more reading into the local table commutes with merging it into the global one. */
  lemma MergeObserve(g: Table, l: Table, key: Key, v: int)
    ensures Merge(g, Observe(l, key, v)) == Observe(Merge(g, l), key, v)
  {
    var lhs := Merge(g, Observe(l, key, v));
    var rhs := Observe(Merge(g, l), key, v);
    assert lhs.Keys == rhs.Keys;
    forall k | k in lhs ensures lhs[k] == rhs[k] {
      if k == key {
        MergeObserveAt(g, l, key, v);
      }
    }
  }

  /** The entry of the observed key in MergeObserve. */
  lemma MergeObserveAt(g: Table, l: Table, key: Key, v: int)
    ensures key in Merge(g, Observe(l, key, v)) && key in Observe(Merge(g, l), key, v)
    ensures Merge(g, Observe(l, key, v))[key] == Observe(Merge(g, l), key, v)[key]
  {
    var o := Observe(l, key, v);
    if key in g && key in l {
      assert Merge(g, l)[key] == Combine(g[key], l[key]);
      assert Merge(g, o)[key] == Combine(g[key], o[key]);
    } else if key in g {
      assert Merge(g, l)[key] == g[key];
      assert Merge(g, o)[key] == Combine(g[key], o[key]);
    } else if key in l {
      assert Merge(g, l)[key] == l[key];
      assert Merge(g, o)[key] == o[key];
    } else {
      assert key !in Merge(g, l);
      assert Merge(g, o)[key] == o[key];
    }
  }

  /** One step of the summaries of b and of a + b, as a lemma of its own so that the induction below does not unfold them. */
  lemma AppendStep(a: seq<Record>, b: seq<Record>)
    requires WellFormed(a) && WellFormed(b) && b != []
    ensures WellFormed(b[..|b| - 1]) && WellFormed(a + b[..|b| - 1]) && WellFormed(a + b)
    ensures WellFormedRecord(b[|b| - 1])
    ensures Summarize(b) == Observe(Summarize(b[..|b| - 1]), b[|b| - 1].key, Reading(b[|b| - 1]))
    ensures Summarize(a + b) == Observe(Summarize(a + b[..|b| - 1]), b[|b| - 1].key, Reading(b[|b| - 1]))
  {
    assert (a + b)[..|a + b| - 1] == a + b[..|b| - 1];
    assert (a + b)[|a + b| - 1] == b[|b| - 1];
  }

  /** The corrected merge of two summaries is the summary of both inputs, in order. */
  lemma {:induction false} MergeSummaries(a: seq<Record>, b: seq<Record>)
    requires WellFormed(a) && WellFormed(b)
    ensures WellFormed(a + b) && Merge(Summarize(a), Summarize(b)) == Summarize(a + b)
  {
    if b == [] {
      assert a + b == a;
      assert Merge(Summarize(a), map[]) == Summarize(a);
    } else {
      var last := b[|b| - 1];
      AppendStep(a, b);
      MergeSummaries(a, b[..|b| - 1]);
      MergeObserve(Summarize(a), Summarize(b[..|b| - 1]), last.key, Reading(last));
    }
  }

  /** Merging is commutative on tables whose entries carry their own keys as names. */
  lemma MergeCommutes(g: Table, l: Table)
    requires Coherent(g) && Coherent(l)
    ensures Merge(g, l) == Merge(l, g)
  {
    var m1 := Merge(g, l);
    var m2 := Merge(l, g);
    assert m1.Keys == m2.Keys;
    forall k | k in m1 ensures m1[k] == m2[k] {
      MergeByShape(g, l, Combine, k);
      MergeByShape(l, g, Combine, k);
    }
  }

  /** Merging is associative, so the order in which the workers' tables arrive does not matter. */
  lemma MergeAssociates(a: Table, b: Table, c: Table)
    ensures Merge(Merge(a, b), c) == Merge(a, Merge(b, c))
  {
    var m1 := Merge(Merge(a, b), c);
    var m2 := Merge(a, Merge(b, c));
    assert m1.Keys == m2.Keys;
    forall k | k in m1 ensures m1[k] == m2[k] {
      MergeByShape(a, b, Combine, k);
      MergeByShape(b, c, Combine, k);
      MergeByShape(Merge(a, b), c, Combine, k);
      MergeByShape(a, Merge(b, c), Combine, k);
    }
  }

  /** The tables received so far, folded into the global table as intended. */
  function Reduce(g: Table, stream: seq<Table>): Table {
    if stream == [] then g
    else Merge(Reduce(g, stream[..|stream| - 1]), stream[|stream| - 1])
  }

  /** The corrected processMeasurement. */
  method ProcessMeasurementFixed(cityHash: Table, computeStream: seq<Table>) returns (result: Table)
    ensures result == Reduce(cityHash, computeStream)
  {
    result := cityHash;
    for i := 0 to |computeStream|
      invariant result == Reduce(cityHash, computeStream[..i])
    {
      assert computeStream[..i + 1][..i] == computeStream[..i];
      result := MergeLocalFixed(result, computeStream[i]);
    }
    assert computeStream[..|computeStream|] == computeStream;
  }

  /** The records of the chunks, in order. */
  function Concat(chunks: seq<seq<Record>>): seq<Record> {
    if chunks == [] then [] else Concat(chunks[..|chunks| - 1]) + chunks[|chunks| - 1]
  }

  predicate AllWellFormed(chunks: seq<seq<Record>>) {
    forall i :: 0 <= i < |chunks| ==> WellFormed(chunks[i])
  }

  /** The summary of each chunk, in order: what the workers send. */
  function Summaries(chunks: seq<seq<Record>>): (s: seq<Table>)
    requires AllWellFormed(chunks)
    ensures |s| == |chunks|
  {
    if chunks == [] then []
    else
      assert AllWellFormed(chunks[..|chunks| - 1]);
      Summaries(chunks[..|chunks| - 1]) + [Summarize(chunks[|chunks| - 1])]
  }

  /** One step of the summaries of the chunks. */
  lemma SummariesStep(chunks: seq<seq<Record>>)
    requires AllWellFormed(chunks) && chunks != []
    ensures AllWellFormed(chunks[..|chunks| - 1]) && WellFormed(chunks[|chunks| - 1])
    ensures Summaries(chunks) == Summaries(chunks[..|chunks| - 1]) + [Summarize(chunks[|chunks| - 1])]
  {
    assert AllWellFormed(chunks[..|chunks| - 1]);
  }

  /** One step of the reduction over a stream ending in t. */
  lemma ReduceStep(g: Table, init: seq<Table>, t: Table)
    ensures Reduce(g, init + [t]) == Merge(Reduce(g, init), t)
  {
    assert (init + [t])[..|init|] == init;
  }

  /** One step of the concatenation of the chunks. */
  lemma ConcatStep(pre: seq<Record>, chunks: seq<seq<Record>>)
    requires chunks != []
    ensures pre + Concat(chunks) == (pre + Concat(chunks[..|chunks| - 1])) + chunks[|chunks| - 1]
  {
    var front, last := Concat(chunks[..|chunks| - 1]), chunks[|chunks| - 1];
    assert Concat(chunks) == front + last;
    AppendAssoc(pre, front, last);
  }

  lemma AppendAssoc(a: seq<Record>, b: seq<Record>, c: seq<Record>)
    ensures a + (b + c) == (a + b) + c
  {
  }

  /**
   * Reducing the chunk summaries with the corrected merge gives the summary
   * of all the chunks' records: the pipeline computes the same table as one
   * sequential scan of the whole input.
   */
  lemma {:induction false} ReduceSummaries(pre: seq<Record>, chunks: seq<seq<Record>>)
    requires WellFormed(pre) && AllWellFormed(chunks)
    ensures WellFormed(pre + Concat(chunks))
    ensures Reduce(Summarize(pre), Summaries(chunks)) == Summarize(pre + Concat(chunks))
  {
    if chunks == [] {
      assert pre + Concat(chunks) == pre;
    } else {
      var init := chunks[..|chunks| - 1];
      SummariesStep(chunks);
      ReduceStep(Summarize(pre), Summaries(init), Summarize(chunks[|chunks| - 1]));
      ConcatStep(pre, chunks);
      ReduceSummaries(pre, init);
      MergeSummaries(pre + Concat(init), chunks[|chunks| - 1]);
    }
  }
}
