/**
 * The worker's chunk scanner `processChunk`, without the final send on the
 * result channel: it returns the local table instead.
 */
module Worker {
  import opened Bytes
  import opened FixedPoint
  import opened Aggregate

  /** A record as it appears in the file. */
  function Line(r: Record): seq<byte> {
    r.key + [SEMI] + r.value + [NL]
  }

  /** The bytes of a chunk made of the given records. */
  function Serialize(recs: seq<Record>): seq<byte> {
    if recs == [] then [] else Line(recs[0]) + Serialize(recs[1..])
  }

  lemma {:induction false} SerializeAppend(a: seq<Record>, b: seq<Record>)
    ensures Serialize(a + b) == Serialize(a) + Serialize(b)
  {
    if a == [] {
      assert a + b == b;
    } else {
      assert (a + b)[1..] == a[1..] + b;
      SerializeAppend(a[1..], b);
    }
  }

  /**
   * The scanner reads the six bytes from each ';' on (the ';' and up to five
   * value bytes) without a bounds check; Go takes them from the slice's spare
   * capacity. Here the window must lie inside the chunk.
   */
  predicate LookaheadFits(chunk: seq<byte>) {
    forall p :: 0 <= p < |chunk| && chunk[p] == SEMI ==> p + 6 <= |chunk|
  }

  lemma ShapeBytes(v: seq<byte>)
    requires ValueShape(v)
    ensures 3 <= |v| <= 5
    ensures forall j :: 0 <= j < |v| ==> v[j] != NL
  {
    var d := Unsigned(v);
    if |v| > 0 && v[0] == MINUS {
      assert forall j :: 1 <= j < |v| ==> v[j] == d[j - 1];
    }
  }

  lemma SerializeOne(r: Record)
    ensures Serialize([r]) == Line(r)
  {
    assert [r][1..] == [];
  }

  /** Where the k-th record starts in the bytes of the records. */
  function Offset(recs: seq<Record>, k: nat): nat
    requires k <= |recs|
  {
    if k == 0 then 0 else Offset(recs, k - 1) + |Line(recs[k - 1])|
  }

  lemma {:induction false} OffsetSplits(recs: seq<Record>, k: nat)
    requires k <= |recs|
    ensures Serialize(recs) == Serialize(recs[..k]) + Serialize(recs[k..])
    ensures |Serialize(recs[..k])| == Offset(recs, k)
  {
    assert recs[..k] + recs[k..] == recs;
    SerializeAppend(recs[..k], recs[k..]);
    if k > 0 {
      OffsetSplits(recs, k - 1);
      assert recs[..k] == recs[..k - 1] + [recs[k - 1]];
      SerializeAppend(recs[..k - 1], [recs[k - 1]]);
      SerializeOne(recs[k - 1]);
    }
  }

  /** Record k lies in the chunk from its offset on: key, ';', value, '\n'. */
  predicate LaidOut(chunk: seq<byte>, recs: seq<Record>, k: nat)
    requires k < |recs|
  {
    var p := Offset(recs, k);
    var r := recs[k];
    var semi := p + |r.key|;
    && semi + |r.value| + 2 == Offset(recs, k + 1) <= |chunk|
    && chunk[p .. semi] == r.key
    && chunk[semi] == SEMI
    && chunk[semi + 1 .. semi + 1 + |r.value|] == r.value
    && chunk[semi + 1 + |r.value|] == NL
  }

  /** The chunk is the lines of the records, one after the other, and nothing more. */
  predicate Layout(chunk: seq<byte>, recs: seq<Record>) {
    && Offset(recs, |recs|) == |chunk|
    && forall k :: 0 <= k < |recs| ==> LaidOut(chunk, recs, k)
  }

  /** A line found at index p of a chunk, sliced into its parts. */
  lemma LineAt(chunk: seq<byte>, p: int, r: Record, post: seq<byte>)
    requires 0 <= p <= |chunk| && chunk[p..] == Line(r) + post
    ensures var semi := p + |r.key|;
      && semi + |r.value| + 2 <= |chunk|
      && chunk[p .. semi] == r.key
      && chunk[semi] == SEMI
      && chunk[semi + 1 .. semi + 1 + |r.value|] == r.value
      && chunk[semi + 1 + |r.value|] == NL
  {
    var s := chunk[p..];
    var semi := |r.key|;
    var e := semi + 1 + |r.value|;
    assert s[..semi] == r.key;
    assert s[semi] == SEMI;
    assert s[semi + 1 .. e] == r.value;
    assert s[e] == NL;
    assert chunk[p .. p + semi] == s[..semi];
    assert chunk[p + semi + 1 .. p + e] == s[semi + 1 .. e];
  }

  /** Record k of the serialized records, where its offset says. */
  lemma RecordAt(recs: seq<Record>, k: nat)
    requires k < |recs|
    ensures LaidOut(Serialize(recs), recs, k)
  {
    OffsetSplits(recs, k);
    assert recs[k..][1..] == recs[k + 1..];
    assert Serialize(recs[k..]) == Line(recs[k]) + Serialize(recs[k + 1..]);
    LaidOutAt(Serialize(recs), recs, k, Serialize(recs[k + 1..]));
  }

  lemma LaidOutAt(chunk: seq<byte>, recs: seq<Record>, k: nat, post: seq<byte>)
    requires k < |recs| && Offset(recs, k) <= |chunk|
    requires chunk[Offset(recs, k)..] == Line(recs[k]) + post
    ensures LaidOut(chunk, recs, k)
  {
    LineAt(chunk, Offset(recs, k), recs[k], post);
  }

  /** The records end where their bytes end. */
  lemma OffsetEnd(recs: seq<Record>)
    ensures Offset(recs, |recs|) == |Serialize(recs)|
  {
    OffsetSplits(recs, |recs|);
    assert recs[..|recs|] == recs;
  }

  /** The serialized records are laid out line by line. */
  lemma SerializeLayout(recs: seq<Record>)
    ensures Layout(Serialize(recs), recs)
  {
    OffsetEnd(recs);
    forall k | 0 <= k < |recs| ensures LaidOut(Serialize(recs), recs, k) {
      RecordAt(recs, k);
    }
  }

  /** Record k's bytes, read back from a laid-out chunk. */
  lemma LineOf(chunk: seq<byte>, recs: seq<Record>, k: nat)
    requires k < |recs| && LaidOut(chunk, recs, k)
    ensures chunk[Offset(recs, k) .. Offset(recs, k + 1)] == Line(recs[k])
  {
    var p := Offset(recs, k);
    var r := recs[k];
    var semi := p + |r.key|;
    assert chunk[p .. Offset(recs, k + 1)] == chunk[p .. semi] + [chunk[semi]] + chunk[semi + 1 .. semi + 1 + |r.value|] + [chunk[semi + 1 + |r.value|]];
  }

  lemma {:induction false} LayoutSuffix(chunk: seq<byte>, recs: seq<Record>, k: nat)
    requires Layout(chunk, recs) && k <= |recs|
    ensures Offset(recs, k) <= |chunk| && chunk[Offset(recs, k)..] == Serialize(recs[k..])
    decreases |recs| - k
  {
    if k == |recs| {
      assert recs[k..] == [];
    } else {
      LayoutSuffix(chunk, recs, k + 1);
      assert LaidOut(chunk, recs, k);
      LineOf(chunk, recs, k);
      var p := Offset(recs, k);
      var e := Offset(recs, k + 1);
      assert chunk[p..] == chunk[p .. e] + chunk[e..];
      assert recs[k..][1..] == recs[k + 1..];
    }
  }

  /** A laid-out chunk holds exactly the serialized records. */
  lemma LayoutSerialize(chunk: seq<byte>, recs: seq<Record>)
    requires Layout(chunk, recs)
    ensures chunk == Serialize(recs)
  {
    LayoutSuffix(chunk, recs, 0);
    assert recs[0..] == recs;
  }

  /** The bytes the scan meets in a laid-out record, index by index. */
  lemma InRecord(chunk: seq<byte>, recs: seq<Record>, k: nat)
    requires WellFormed(recs) && Layout(chunk, recs) && k < |recs|
    ensures WellFormedRecord(recs[k])
    ensures var semi := Offset(recs, k) + |recs[k].key|;
      var value := recs[k].value;
      && semi + |value| + 2 == Offset(recs, k + 1) <= |chunk|
      && chunk[Offset(recs, k) .. semi] == recs[k].key
      && chunk[semi] == SEMI
      && (forall j :: 0 <= j < |value| ==> chunk[semi + 1 + j] == value[j])
      && chunk[semi + 1 + |value|] == NL
  {
    assert WellFormedRecord(recs[k]);
    assert LaidOut(chunk, recs, k);
    var semi := Offset(recs, k) + |recs[k].key|;
    var v := recs[k].value;
    forall j | 0 <= j < |v| ensures chunk[semi + 1 + j] == v[j] {
      assert chunk[semi + 1 + j] == chunk[semi + 1 .. semi + 1 + |v|][j];
    }
  }

  /**
   * Where the scan can stand inside record k: a ';' only at the end of the
   * key, and at least five bytes after it (value and '\n').
   */
  lemma InKey(chunk: seq<byte>, recs: seq<Record>, k: nat, i: int)
    requires WellFormed(recs) && Layout(chunk, recs) && k < |recs|
    requires Offset(recs, k) <= i <= Offset(recs, k) + |recs[k].key|
    ensures Offset(recs, k) + |recs[k].key| + 5 <= Offset(recs, k + 1) <= |chunk|
    ensures chunk[i] == SEMI <==> i == Offset(recs, k) + |recs[k].key|
    ensures k + 1 < |recs| ==> |recs[k + 1].key| > 0
  {
    assert WellFormedRecord(recs[k]);
    assert LaidOut(chunk, recs, k);
    ShapeBytes(recs[k].value);
    var p := Offset(recs, k);
    var key := recs[k].key;
    if i < p + |key| {
      assert chunk[p .. p + |key|] == key;
      assert chunk[i] == key[i - p];
      assert key[i - p] != SEMI;
    } else {
      assert chunk[p + |key|] == SEMI;
    }
    if k + 1 < |recs| {
      assert WellFormedRecord(recs[k + 1]);
    }
  }

  /**
   * Folding one reading into the worker's local table, as the scan does in
   * place: an existing entry has its minimum and maximum widened, the reading
   * added and the count incremented; a new name gets a fresh entry.
   * It is the in-place rendering of the function Observe.
   */
  method UpdateCity(tmpHash: Table, city: Key, temp: int) returns (table: Table)
    ensures table == Observe(tmpHash, city, temp)
  {
    table := tmpHash;
    if city in table {
      var val := table[city];
      if temp < val.min {
        val := val.(min := temp);
      }
      if temp > val.max {
        val := val.(max := temp);
      }
      val := val.(sum := val.sum + temp, count := val.count + 1);
      table := table[city := val];
    } else {
      table := table[city := City(city, temp, temp, temp, 1)];
    }
  }

  /**
   * The inner loop of the scan: from the ';' at index i, count the bytes of
   * the six-byte window before the first '\n' (all six when there is none).
   * On a record's ';' that is the ';' and the value.
   */
  method LineEnd(chunk: seq<byte>, i: int, ghost value: seq<byte>) returns (bitesToEndLine: int)
    requires 0 <= i && i + 6 <= |chunk| && chunk[i] == SEMI
    requires 3 <= |value| <= 5 && i + 1 + |value| < |chunk| && chunk[i + 1 + |value|] == NL
    requires forall j :: 0 <= j < |value| ==> chunk[i + 1 + j] == value[j] && value[j] != NL
    ensures bitesToEndLine == |value| + 1
  {
    var window := chunk[i .. i + 6];
    assert forall j :: 0 <= j < 6 ==> window[j] == chunk[i + j];
    assert window[0] == SEMI && (|value| < 5 ==> window[|value| + 1] == NL);
    assert forall j :: 1 <= j <= |value| ==> window[j] == value[j - 1] != NL;
    bitesToEndLine := 0;
    while bitesToEndLine < |window| && window[bitesToEndLine] != NL
      invariant 0 <= bitesToEndLine <= |value| + 1
      decreases |window| - bitesToEndLine
    {
      bitesToEndLine := bitesToEndLine + 1;
    }
  }

  /**
   * The body of the scan once it stands on the ';' of record k: find the
   * '\n' (LineEnd), parse the value, step past the '\n', and fold the
   * reading into the local table under the key that runs from the line
   * start to the ';'.
   */
  method ScanRecord(chunk: seq<byte>, lineStartIdx: int, i: int, tmpHash: Table, ghost recs: seq<Record>, ghost k: nat)
    returns (next: int, table: Table)
    requires WellFormed(recs) && Layout(chunk, recs) && LookaheadFits(chunk) && k < |recs|
    requires lineStartIdx == Offset(recs, k) && i == lineStartIdx + |recs[k].key|
    ensures next == Offset(recs, k + 1)
    ensures 0 < next <= |chunk| && chunk[next - 1] == NL
    ensures WellFormedRecord(recs[k]) && table == Observe(tmpHash, recs[k].key, Reading(recs[k]))
  {
    InRecord(chunk, recs, k);
    ghost var value := recs[k].value;
    ShapeBytes(value);
    var city := chunk[lineStartIdx .. i];
    var bitesToEndLine := LineEnd(chunk, i, value);
    assert chunk[i + 1 .. i + bitesToEndLine] == value;
    var temp := ParseTemp(chunk[i + 1 .. i + bitesToEndLine]);
    next := i + bitesToEndLine + 1;
    table := UpdateCity(tmpHash, city, temp);
  }

  /** Summarizing one more record of a prefix is one more fold step. */
  lemma SummarizeStep(recs: seq<Record>, k: nat)
    requires WellFormed(recs) && k < |recs|
    ensures WellFormed(recs[..k]) && WellFormed(recs[..k + 1]) && WellFormedRecord(recs[k])
    ensures Summarize(recs[..k + 1]) == Observe(Summarize(recs[..k]), recs[k].key, Reading(recs[k]))
  {
    assert recs[..k + 1][..k] == recs[..k];
    assert WellFormedRecord(recs[k]);
  }

  /**
   * The scan of processChunk: walk the chunk byte by byte, and at each ';'
   * process the record (ScanRecord), which leaves the cursor just past the
   * line's '\n'; as in the source, the cursor then advances once more, over
   * the first byte of the next key. The result is the summary of the chunk's
   * records.
   */
  method ScanChunk(chunk: seq<byte>, ghost recs: seq<Record>) returns (table: Table)
    requires WellFormed(recs) && Layout(chunk, recs)
    requires LookaheadFits(chunk)
    ensures table == Summarize(recs)
  {
    table := map[];
    var chunkSize := |chunk|;
    var i := 0;
    var lineStartIdx := 0;
    ghost var k := 0;
    while true
      invariant 0 <= k <= |recs| && lineStartIdx == Offset(recs, k) <= i
      invariant k < |recs| ==> i <= lineStartIdx + |recs[k].key|
      invariant k == |recs| ==> i <= lineStartIdx + 1
      invariant WellFormed(recs[..k]) && table == Summarize(recs[..k])
      decreases chunkSize + 1 - i
    {
      if k < |recs| {
        InKey(chunk, recs, k, i);
      }
      if i >= chunkSize - 1 {
        break;
      }
      if chunk[i] == SEMI {
        SummarizeStep(recs, k);
        i, table := ScanRecord(chunk, lineStartIdx, i, table, recs, k);
        lineStartIdx := i;
        k := k + 1;
      }
      i := i + 1;
    }
    assert recs[..k] == recs;
  }

  /** After each record the line start is just past that record's '\n'. */
  lemma LineStartsAfterNewline(chunk: seq<byte>, recs: seq<Record>, j: nat)
    requires Layout(chunk, recs) && j < |recs|
    ensures 0 < Offset(recs, j + 1) <= |chunk| && chunk[Offset(recs, j + 1) - 1] == NL
  {
    assert LaidOut(chunk, recs, j);
  }
}
