/** What the operations on a request body deliver, written out, and what creations and receptions decide. */
module BodyStorageLaws {
  import opened Basics
  import opened BodyStorage

  // ----- Single operations -----

  /** The reply to a read of at least one byte at `pos`. */
  function ReadAt(data: Bytes, pos: nat, n: nat): Reply {
    if |data| <= pos then Reply([], 0, Eof)
    else Reply(data[pos..if pos + n <= |data| then pos + n else |data|], 0, NoError)
  }

  /** A read delivers the bytes from the position on and moves it past them; at the end it says so. */
  lemma ReadExactly(b: Body, n: nat, isDisk: bool)
    requires !b.closed && 0 < n
    ensures Act(b, Read(n), isDisk) ==
            (Body(b.data, b.pos + |ReadAt(b.data, b.pos, n).bytes|, false), ReadAt(b.data, b.pos, n))
  {
  }

  /** An empty read delivers nothing and moves nothing; at the end memory says so and a file does not. */
  lemma EmptyReadExactly(b: Body, isDisk: bool)
    requires !b.closed
    ensures Act(b, Read(0), isDisk) ==
            (b, Reply([], 0, if b.pos < |b.data| || isDisk then NoError else Eof))
  {
    assert b.(pos := b.pos + 0) == b;
  }

  /** A seek goes to its target, counted from the start, the position or the end, and reports it; a target before
      the start is refused and moves nothing. */
  lemma SeekExactly(b: Body, offset: int, whence: Whence, target: int, isDisk: bool)
    requires !b.closed
    requires target == match whence case Start => offset case Current => b.pos + offset case End => |b.data| + offset
    ensures Act(b, Seek(offset, whence), isDisk) ==
            if target < 0 then (b, Reply([], 0, BadSeek))
            else (Body(b.data, target, false), Reply([], target, NoError))
  {
  }

  /** All bytes are delivered whatever the position, which stays. */
  lemma AllBytesExactly(b: Body, isDisk: bool)
    requires !b.closed
    ensures Act(b, ReadAll, isDisk) == (b, Reply(b.data, 0, NoError))
  {
  }

  /** Closing leaves nothing but closing; a closed body refuses everything else. */
  lemma CloseExactly(b: Body, op: Op, isDisk: bool)
    ensures Act(b, Op.Close, isDisk) == (Body(b.data, b.pos, true), Reply([], 0, NoError))
    ensures b.closed && op != Op.Close ==> Act(b, op, isDisk) == (b, Reply([], 0, StorageClosed))
  {
  }

  // ----- Reading again -----

  /** A seek and a read after it. */
  lemma SeekThenRead(b: Body, offset: int, whence: Whence, target: int, n: nat, isDisk: bool)
    requires !b.closed && 0 < n
    requires target == match whence case Start => offset case Current => b.pos + offset case End => |b.data| + offset
    ensures Replies(b, [Seek(offset, whence), Read(n)], isDisk) ==
            if target < 0 then [Reply([], 0, BadSeek), ReadAt(b.data, b.pos, n)]
            else [Reply([], target, NoError), ReadAt(b.data, target, n)]
  {
    SeekExactly(b, offset, whence, target, isDisk);
    var next := Act(b, Seek(offset, whence), isDisk).0;
    ReadExactly(next, n, isDisk);
    RepliesCons(b, [Seek(offset, whence), Read(n)], [Read(n)], isDisk);
    RepliesCons(next, [Read(n)], [], isDisk);
  }

  /** The body after a sequence of operations. */
  function Left(b: Body, ops: seq<Op>, isDisk: bool): Body
    decreases ops
  {
    if ops == [] then b else Left(Act(b, ops[0], isDisk).0, ops[1..], isDisk)
  }

  lemma {:induction false} RepliesConcat(b: Body, ops: seq<Op>, more: seq<Op>, isDisk: bool)
    ensures Replies(b, ops + more, isDisk) == Replies(b, ops, isDisk) + Replies(Left(b, ops, isDisk), more, isDisk)
    decreases |ops|
  {
    if ops == [] {
      assert [] + more == more;
    } else {
      var rest, next := ops[1..], Act(b, ops[0], isDisk).0;
      assert (ops + more)[1..] == rest + more;
      RepliesConcat(next, rest, more, isDisk);
      RepliesCons(b, ops + more, rest + more, isDisk);
      RepliesCons(b, ops, rest, isDisk);
    }
  }

  lemma {:induction false} LeftKeepsData(b: Body, ops: seq<Op>, isDisk: bool)
    ensures Left(b, ops, isDisk).data == b.data
    ensures !b.closed && (forall i :: 0 <= i < |ops| ==> !ops[i].Close?) ==> !Left(b, ops, isDisk).closed
    decreases |ops|
  {
    if ops != [] {
      LeftKeepsData(Act(b, ops[0], isDisk).0, ops[1..], isDisk);
    }
  }

  /** Rewinding and reading in chunks, enough of them, delivers the whole content. */
  lemma RewindDeliversAll(b: Body, chunks: seq<Op>, isDisk: bool)
    requires !b.closed && (forall i :: 0 <= i < |chunks| ==> chunks[i].Read?) && |b.data| <= Total(chunks)
    ensures var replies := Replies(b, [Seek(0, Start)] + chunks, isDisk);
            replies != [] && replies[0] == Reply([], 0, NoError) && Joined(replies[1..]) == b.data
  {
    var ops, start := [Seek(0, Start)] + chunks, Body(b.data, 0, false);
    assert ops[1..] == chunks;
    SeekExactly(b, 0, Start, 0, isDisk);
    RepliesCons(b, ops, chunks, isDisk);
    ChunksReassemble(start, chunks, isDisk);
    WholeChunk(b.data, Total(chunks));
    assert Replies(b, ops, isDisk)[1..] == Replies(start, chunks, isDisk);
  }

  lemma WholeChunk(data: Bytes, n: nat)
    requires |data| <= n
    ensures Chunk(data, 0, n) == data
  {
  }

  /** ... however often and however far the body was read before. */
  lemma RereadDeliversAll(b: Body, before: seq<Op>, chunks: seq<Op>, isDisk: bool)
    requires !b.closed && (forall i :: 0 <= i < |before| ==> !before[i].Close?)
    requires (forall i :: 0 <= i < |chunks| ==> chunks[i].Read?) && |b.data| <= Total(chunks)
    ensures var replies := Replies(b, before + ([Seek(0, Start)] + chunks), isDisk);
            |before| < |replies| && Joined(replies[|before| + 1..]) == b.data
  {
    var left, again := Left(b, before, isDisk), [Seek(0, Start)] + chunks;
    LeftKeepsData(b, before, isDisk);
    RewindDeliversAll(left, chunks, isDisk);
    RepliesConcat(b, before, again, isDisk);
    RepliesLength(b, before, isDisk);
    var replies := Replies(left, again, isDisk);
    assert Replies(b, before + again, isDisk)[|before| + 1..] == replies[1..];
  }

  lemma {:induction false} RepliesLength(b: Body, ops: seq<Op>, isDisk: bool)
    ensures |Replies(b, ops, isDisk)| == |ops|
    decreases |ops|
  {
    if ops != [] { RepliesLength(Act(b, ops[0], isDisk).0, ops[1..], isDisk); }
  }

  /** The same of a storage object of either kind. */
  method ReadAgain(storage: Storage, chunks: seq<Op>) returns (content: Bytes)
    requires storage.Valid() && !storage.View().closed
    requires (forall i :: 0 <= i < |chunks| ==> chunks[i].Read?) && |storage.View().data| <= Total(chunks)
    modifies storage.Parts(), storage.Home()
    ensures content == old(storage.View().data)
  {
    RewindDeliversAll(storage.View(), chunks, storage.Disk?);
    var replies := storage.PerformAll([Seek(0, Start)] + chunks);
    content := Joined(replies[1..]);
  }

  // ----- What is open -----

  function OpenOf(held: seq<Held>, isDisk: bool): set<int> {
    set i | 0 <= i < |held| && held[i].isDisk == isDisk && !held[i].body.closed
  }

  function OpenBytes(held: seq<Held>, isDisk: bool): nat {
    if held == [] then 0
    else
      OpenBytes(held[..|held| - 1], isDisk) +
      if held[|held| - 1].isDisk == isDisk && !held[|held| - 1].body.closed then |held[|held| - 1].body.data| else 0
  }

  /** The census is the number and the bytes of the open files and of the open buffers. */
  lemma {:induction false} CensusExactly(held: seq<Held>)
    ensures Census(held) ==
            Usage(|OpenOf(held, true)|, OpenBytes(held, true), |OpenOf(held, false)|, OpenBytes(held, false))
    decreases |held|
  {
    if held != [] {
      var init, last := held[..|held| - 1], held[|held| - 1];
      CensusExactly(init);
      OpenPush(init, last, held, true);
      OpenPush(init, last, held, false);
    }
  }

  lemma OpenPush(init: seq<Held>, last: Held, held: seq<Held>, isDisk: bool)
    requires held == init + [last]
    ensures |OpenOf(held, isDisk)| ==
            |OpenOf(init, isDisk)| + if last.isDisk == isDisk && !last.body.closed then 1 else 0
  {
    assert OpenOf(held, isDisk) ==
           OpenOf(init, isDisk) + if last.isDisk == isDisk && !last.body.closed then {|init|} else {};
  }

  // ----- What is decided -----

  /** A created body goes to disk exactly if the disk is enabled and works, the body has at least the threshold,
      and the open files leave room for it. */
  lemma CreationExactly(held: seq<Held>, data: Bytes, settings: Settings, diskWorks: bool)
    ensures var isDisk := settings.enabled && diskWorks && settings.threshold <= |data| &&
                          OpenBytes(held, true) + |data| <= settings.maxBytes;
            After(held, Command.Create(data, settings, diskWorks)) == held + [Held(isDisk, Body(data, 0, false))]
  {
    CensusExactly(held);
  }

  /** There is room on disk for a body of this length, and it is long enough. */
  predicate HasRoomFor(held: seq<Held>, settings: Settings, length: int) {
    settings.enabled && settings.threshold <= length && OpenBytes(held, true) + length <= settings.maxBytes
  }

  /** A body is received exactly if it arrives whole, within the limit, and where its announced length asks for the
      disk, the disk works; it then goes to disk if the announced or the real length asks for it. */
  lemma ReceptionExactly(held: seq<Held>, source: Source, contentLength: int, maxBytes: int, settings: Settings,
                         diskWorks: bool)
    ensures var announced := 0 < contentLength && HasRoomFor(held, settings, contentLength);
            var isDisk := diskWorks && (announced || HasRoomFor(held, settings, |source.content|));
            After(held, Command.Receive(source, contentLength, maxBytes, settings, diskWorks)) ==
            if source.breaks || maxBytes < |source.content| || (announced && !diskWorks) then held
            else held + [Held(isDisk, Body(source.content, 0, false))]
  {
    CensusExactly(held);
  }

  /** An operation changes the one storage it is for, never its kind or its content. */
  lemma UseExactly(held: seq<Held>, index: nat, op: Op)
    ensures var after := After(held, Command.Use(index, op));
            && |after| == |held|
            && (forall i :: 0 <= i < |held| && i != index ==> after[i] == held[i])
            && (index < |held| ==>
                 && after[index].isDisk == held[index].isDisk && after[index].body.data == held[index].body.data
                 && after[index].body == Act(held[index].body, op, held[index].isDisk).0)
  {
  }

  /** Releasing subtracts; the disk counters stop at zero. */
  lemma ReleasedExactly(u: Usage, size: nat)
    ensures Released(u, true, size) ==
            Usage(Max(0, u.diskFiles - 1), Max(0, u.diskBytes - size), u.memoryBuffers, u.memoryBytes)
    ensures Released(u, false, size) ==
            Usage(u.diskFiles, u.diskBytes, u.memoryBuffers - 1, u.memoryBytes - size)
  {
  }
}
