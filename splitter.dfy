/**
 * The block splitter of the reader goroutine: each block read from the file
 * is cut after its last '\n'; the carried-over bytes before it and the block
 * up to that '\n' are sent to a worker, and what follows is carried over.
 */
module Splitter {
  import opened Bytes

  /** bytes.LastIndex for a one-byte separator: the last position of b in s, or -1. */
  function LastIndex(s: seq<byte>, b: byte): (r: int)
    ensures -1 <= r < |s|
    ensures r >= 0 ==> s[r] == b
    ensures forall j :: r < j < |s| ==> s[j] != b
  {
    if s == [] then -1
    else if s[|s| - 1] == b then |s| - 1
    else
      assert forall j :: 0 <= j < |s| - 1 ==> s[..|s| - 1][j] == s[j];
      LastIndex(s[..|s| - 1], b)
  }

  /** What one split step yields: the bytes sent to a worker and the new carried-over rest. */
  datatype Cut = Cut(toSend: seq<byte>, rest: seq<byte>)

  /**
   * The split of the carried-over rest and a block buff at the last '\n' of
   * buff. No byte is lost or repeated; the new rest is a tail of buff without
   * '\n'; what is sent ends in '\n', unless buff has none, in which case the
   * old rest is sent alone and the whole block is carried over.
   */
  function Split(rest: seq<byte>, buff: seq<byte>): (c: Cut)
    ensures c.toSend + c.rest == rest + buff
    ensures |c.rest| <= |buff| && c.rest == buff[|buff| - |c.rest|..]
    ensures forall j :: 0 <= j < |c.rest| ==> c.rest[j] != NL
    ensures NL in buff ==> |c.toSend| > 0 && c.toSend[|c.toSend| - 1] == NL
    ensures NL !in buff ==> c.toSend == rest && c.rest == buff
  {
    var idx := LastIndex(buff, NL);
    assert buff[..idx + 1] + buff[idx + 1..] == buff;
    assert NL !in buff ==> idx == -1 && buff[..0] == [] && rest + [] == rest;
    Cut(rest + buff[..idx + 1], buff[idx + 1..])
  }

  /**
   * One iteration of the reader loop after a read of readSize bytes into
   * buff. The copy of buff[:readSize] is overwritten before it is used, and
   * the '\n' is searched for in the whole of buff, not in the bytes just read.
   */
  method SplitStep(rest: seq<byte>, buff: seq<byte>, readSize: int) returns (toSend: seq<byte>, newRest: seq<byte>)
    requires 0 < readSize <= |buff|
    ensures Cut(toSend, newRest) == Split(rest, buff)
  {
    toSend := buff[..readSize];
    var lastNewLineIdx := LastIndex(buff, NL);
    toSend := rest + buff[..lastNewLineIdx + 1];
    newRest := buff[lastNewLineIdx + 1..];
  }

  /** The buffer after a read of data into it: the read bytes first, the previous contents after them. */
  function AfterRead(buff: seq<byte>, data: seq<byte>): (r: seq<byte>)
    requires |data| <= |buff|
    ensures |r| == |buff| && r[..|data|] == data
    ensures forall j :: |data| <= j < |buff| ==> r[j] == buff[j]
  {
    data + buff[|data|..]
  }

  /** The reader's state between reads: the buffer, the carried-over rest and the blocks sent so far. */
  datatype Reader = Reader(buff: seq<byte>, rest: seq<byte>, sent: seq<seq<byte>>)

  /** The reads a file can give: none empty (a read of 0 bytes ends the loop) and none larger than the buffer. */
  predicate ValidReads(size: nat, fileReads: seq<seq<byte>>) {
    forall i :: 0 <= i < |fileReads| ==> 0 < |fileReads[i]| <= size
  }

  /** One iteration of the reader loop as written: read data into the buffer, then split the whole buffer. */
  function Next(s: Reader, data: seq<byte>): (t: Reader)
    requires |data| <= |s.buff|
    ensures |t.buff| == |s.buff| && |t.sent| == |s.sent| + 1
  {
    var buff := AfterRead(s.buff, data);
    var c := Split(s.rest, buff);
    Reader(buff, c.rest, s.sent + [c.toSend])
  }

  /** The reader loop as written, over the successive reads of the file, into a zero-filled buffer of `size` bytes. */
  function ReadAsWritten(size: nat, fileReads: seq<seq<byte>>): (s: Reader)
    requires ValidReads(size, fileReads)
    ensures |s.buff| == size && |s.sent| == |fileReads|
  {
    if fileReads == [] then Reader(seq(size, _ => 0), [], [])
    else
      assert ValidReads(size, fileReads[..|fileReads| - 1]);
      Next(ReadAsWritten(size, fileReads[..|fileReads| - 1]), fileReads[|fileReads| - 1])
  }

  /** The reader loop with the '\n' searched for only in the bytes just read, buff[:readSize]. */
  function ReadFixed(size: nat, fileReads: seq<seq<byte>>): (s: Reader)
    requires ValidReads(size, fileReads)
    ensures |s.buff| == size && |s.sent| == |fileReads|
  {
    if fileReads == [] then Reader(seq(size, _ => 0), [], [])
    else
      assert ValidReads(size, fileReads[..|fileReads| - 1]);
      var s := ReadFixed(size, fileReads[..|fileReads| - 1]);
      var data := fileReads[|fileReads| - 1];
      var buff := AfterRead(s.buff, data);
      var c := Split(s.rest, buff[..|data|]);
      Reader(buff, c.rest, s.sent + [c.toSend])
  }

  /** file.Read into a reused buffer: the bytes read overwrite its front, the rest of it is left as it was. */
  method ReadInto(buff: array<byte>, data: seq<byte>)
    requires |data| <= buff.Length
    modifies buff
    ensures buff[..] == AfterRead(old(buff[..]), data)
  {
    ghost var before := buff[..];
    forall j | 0 <= j < |data| {
      buff[j] := data[j];
    }
    AfterReadIs(buff[..], before, data);
  }

  /** A buffer that holds data in front and the old contents behind it is the buffer after the read. */
  lemma AfterReadIs(b: seq<byte>, before: seq<byte>, data: seq<byte>)
    requires |b| == |before| && |data| <= |b|
    requires forall j :: 0 <= j < |data| ==> b[j] == data[j]
    requires forall j :: |data| <= j < |b| ==> b[j] == before[j]
    ensures b == AfterRead(before, data)
  {
    var r := AfterRead(before, data);
    assert forall j :: 0 <= j < |data| ==> r[j] == r[..|data|][j] == data[j];
  }

  /**
   * The reader loop as written, with the buffer allocated once and every
   * read copied into its front, as file.Read does; the reads themselves are
   * a parameter. The final rest is returned (the source drops it at EOF).
   */
  method ReadLoop(size: nat, fileReads: seq<seq<byte>>) returns (sent: seq<seq<byte>>, rest: seq<byte>)
    requires ValidReads(size, fileReads)
    ensures sent == ReadAsWritten(size, fileReads).sent && rest == ReadAsWritten(size, fileReads).rest
  {
    var buff := new byte[size](_ => 0);
    rest := [];
    sent := [];
    assert buff[..] == ReadAsWritten(size, fileReads[..0]).buff;
    for i := 0 to |fileReads|
      invariant Reader(buff[..], rest, sent) == ReadAsWritten(size, fileReads[..i])
    {
      ReadAsWrittenStep(size, fileReads, i);
      sent, rest := ReadAndSplit(buff, sent, rest, fileReads[i]);
    }
    assert fileReads[..|fileReads|] == fileReads;
  }

  /** The body of the reader loop: a read into buff, the split, and the block sent. */
  method ReadAndSplit(buff: array<byte>, sent: seq<seq<byte>>, rest: seq<byte>, data: seq<byte>)
    returns (sent': seq<seq<byte>>, rest': seq<byte>)
    requires 0 < |data| <= buff.Length
    modifies buff
    ensures Reader(buff[..], rest', sent') == Next(Reader(old(buff[..]), rest, sent), data)
  {
    ReadInto(buff, data);
    var toSend;
    toSend, rest' := SplitStep(rest, buff[..], |data|);
    sent' := sent + [toSend];
  }

  /** The blocks, concatenated in order. */
  function Flatten(blocks: seq<seq<byte>>): seq<byte> {
    if blocks == [] then [] else Flatten(blocks[..|blocks| - 1]) + blocks[|blocks| - 1]
  }

  lemma FlattenAppend(blocks: seq<seq<byte>>, b: seq<byte>)
    ensures Flatten(blocks + [b]) == Flatten(blocks) + b
  {
    assert (blocks + [b])[..|blocks|] == blocks;
  }

  /** One step of the reader loop as written, from a prefix of the reads to the next one. */
  lemma ReadAsWrittenStep(size: nat, fileReads: seq<seq<byte>>, i: nat)
    requires ValidReads(size, fileReads) && i < |fileReads|
    ensures ValidReads(size, fileReads[..i]) && ValidReads(size, fileReads[..i + 1])
    ensures ReadAsWritten(size, fileReads[..i + 1]) == Next(ReadAsWritten(size, fileReads[..i]), fileReads[i])
  {
    assert fileReads[..i + 1][..i] == fileReads[..i];
    assert ValidReads(size, fileReads[..i]) && ValidReads(size, fileReads[..i + 1]);
  }

  /** One step of the corrected reader loop: the split sees exactly the bytes just read. */
  lemma ReadFixedStep(size: nat, fileReads: seq<seq<byte>>)
    requires ValidReads(size, fileReads) && fileReads != []
    ensures ValidReads(size, fileReads[..|fileReads| - 1])
    ensures var s := ReadFixed(size, fileReads[..|fileReads| - 1]);
      var c := Split(s.rest, fileReads[|fileReads| - 1]);
      ReadFixed(size, fileReads).sent == s.sent + [c.toSend] && ReadFixed(size, fileReads).rest == c.rest
  {
    assert ValidReads(size, fileReads[..|fileReads| - 1]);
    var data := fileReads[|fileReads| - 1];
    var s := ReadFixed(size, fileReads[..|fileReads| - 1]);
    assert AfterRead(s.buff, data)[..|data|] == data;
  }

  /** A split that loses no byte keeps the sent blocks and the rest equal to the bytes read. */
  lemma ConserveStep(sent: seq<seq<byte>>, rest: seq<byte>, data: seq<byte>, c: Cut, read: seq<byte>)
    requires Flatten(sent) + rest == read
    requires c.toSend + c.rest == rest + data
    ensures Flatten(sent + [c.toSend]) + c.rest == read + data
  {
    FlattenAppend(sent, c.toSend);
    calc {
      Flatten(sent + [c.toSend]) + c.rest;
      (Flatten(sent) + c.toSend) + c.rest;
      Flatten(sent) + (rest + data);
      (Flatten(sent) + rest) + data;
    }
  }

  /**
   * With the corrected split, the blocks sent followed by the final rest are
   * exactly the bytes of the file, and the final rest holds no '\n'.
   */
  lemma {:induction false} ReadFixedConserves(size: nat, fileReads: seq<seq<byte>>)
    requires ValidReads(size, fileReads)
    ensures Flatten(ReadFixed(size, fileReads).sent) + ReadFixed(size, fileReads).rest == Flatten(fileReads)
    ensures forall j :: 0 <= j < |ReadFixed(size, fileReads).rest| ==> ReadFixed(size, fileReads).rest[j] != NL
  {
    if fileReads != [] {
      var init := fileReads[..|fileReads| - 1];
      var data := fileReads[|fileReads| - 1];
      ReadFixedStep(size, fileReads);
      ReadFixedConserves(size, init);
      var s := ReadFixed(size, init);
      ConserveStep(s.sent, s.rest, data, Split(s.rest, data), Flatten(init));
    }
  }

  /** When every read fills the buffer, the loop as written behaves as the corrected one. */
  lemma {:induction false} ReadAsWrittenFullReads(size: nat, fileReads: seq<seq<byte>>)
    requires ValidReads(size, fileReads)
    requires forall i :: 0 <= i < |fileReads| ==> |fileReads[i]| == size
    ensures ReadAsWritten(size, fileReads) == ReadFixed(size, fileReads)
  {
    if fileReads != [] {
      var init := fileReads[..|fileReads| - 1];
      assert ValidReads(size, init);
      ReadAsWrittenFullReads(size, init);
      var s := ReadFixed(size, init);
      var buff := AfterRead(s.buff, fileReads[|fileReads| - 1]);
      assert buff[..size] == buff;
    }
  }

  /**
   * A short read resends stale bytes: when the previous block ended with a
   * '\n' and fewer bytes than the buffer holds are read, the whole buffer
   * up to that old '\n' is sent again behind the new bytes, so more bytes
   * are sent than were carried and read.
   */
  lemma StaleTailResent(s: Reader, data: seq<byte>)
    requires |data| < |s.buff| && s.buff[|s.buff| - 1] == NL
    ensures Next(s, data).sent[|s.sent|] == s.rest + AfterRead(s.buff, data)
    ensures Next(s, data).rest == []
    ensures |Next(s, data).sent[|s.sent|] + Next(s, data).rest| > |s.rest + data|
  {
    var buff := AfterRead(s.buff, data);
    assert buff[|buff| - 1] == NL;
    assert buff[..|buff|] == buff;
  }

  /** The example below: a 12-byte buffer first fills with two lines, then a read returns the third line only. */
  const FirstRead: seq<byte> := FromString("a;1.0\nb;2.0\n")
  const SecondRead: seq<byte> := FromString("c;3.0\n")
  const StaleBlock: seq<byte> := FromString("c;3.0\nb;2.0\n")

  /** A first read that fills the buffer and ends with a '\n' is sent whole, and nothing is carried over. */
  lemma FullFirstRead(size: nat, first: seq<byte>)
    requires |first| == size > 0 && first[size - 1] == NL
    ensures ValidReads(size, [first])
    ensures ReadAsWritten(size, [first]) == Reader(first, [], [first])
  {
    var none: seq<seq<byte>> := [];
    assert [first][..0] == none;
    assert AfterRead(ReadAsWritten(size, none).buff, first) == first;
    assert LastIndex(first, NL) == size - 1;
    assert first[..size] == first && first[size..] == [];
    assert Split([], first) == Cut(first, []);
  }

  /**
   * The file "a;1.0\nb;2.0\nc;3.0\n" read into a 12-byte buffer: the
   * second block sent is "c;3.0\nb;2.0\n", so the line "b;2.0" is
   * aggregated twice.
   */
  lemma StaleTailExample()
    ensures ValidReads(12, [FirstRead, SecondRead])
    ensures ReadAsWritten(12, [FirstRead, SecondRead]).sent == [FirstRead, StaleBlock]
  {
    ExampleBlocks();
    var fileReads := [FirstRead, SecondRead];
    assert ValidReads(12, fileReads);
    assert fileReads[..1] == [FirstRead] && fileReads[..2] == fileReads;
    FullFirstRead(12, FirstRead);
    ReadAsWrittenStep(12, fileReads, 1);
    var s1 := Reader(FirstRead, [], [FirstRead]);
    StaleTailResent(s1, SecondRead);
    var sent := Next(s1, SecondRead).sent;
    assert |sent| == 2 && sent[0] == FirstRead && sent[1] == StaleBlock;
    assert sent == [FirstRead, StaleBlock];
  }

  /** What the example needs of its blocks: their sizes, the '\n' ending the first, and the stale buffer. */
  lemma ExampleBlocks()
    ensures |FirstRead| == 12 && FirstRead[11] == NL && |SecondRead| == 6
    ensures StaleBlock == AfterRead(FirstRead, SecondRead)
  {
    AsciiLines();
    AfterReadIs(StaleBlock, FirstRead, SecondRead);
  }

  /** The bytes of the three blocks of the example. */
  lemma AsciiLines()
    ensures FirstRead == [97, 59, 49, 46, 48, 10, 98, 59, 50, 46, 48, 10]
    ensures SecondRead == [99, 59, 51, 46, 48, 10]
    ensures StaleBlock == [99, 59, 51, 46, 48, 10, 98, 59, 50, 46, 48, 10]
  {
  }
}
