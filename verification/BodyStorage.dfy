/** Request bodies kept in memory or in a temporary file behind one interface, and the counters of what is
    in use. The two kinds must be indistinguishable, and the counters exact. */
module BodyStorage {
  import opened Basics

  type Bytes = seq<bv8>

  datatype Error = NoError | Eof | StorageClosed | BadSeek | UnexpectedEof

  datatype Whence = Start | Current | End

  // ----- What a body does -----

  datatype Body = Body(data: Bytes, pos: nat, closed: bool)

  datatype Op = Read(n: nat) | Seek(offset: int, whence: Whence) | ReadAll | Close

  datatype Reply = Reply(bytes: Bytes, position: int, error: Error)

  /** The bytes a read of `n` at `pos` delivers. */
  function Chunk(data: Bytes, pos: nat, n: nat): Bytes {
    if pos >= |data| then [] else data[pos..Min(pos + n, |data|)]
  }

  function Target(length: nat, pos: nat, offset: int, whence: Whence): int {
    match whence
    case Start => offset
    case Current => pos + offset
    case End => length + offset
  }

  /** One operation on a body. Past the end a read reports the end; a file reports it only when asked for at
      least one byte. */
  function Act(b: Body, op: Op, isDisk: bool): (Body, Reply) {
    if op.Close? then (b.(closed := true), Reply([], 0, NoError))
    else if b.closed then (b, Reply([], 0, StorageClosed))
    else
      match op
      case Read(n) =>
        if b.pos >= |b.data| && !(isDisk && n == 0) then (b, Reply([], 0, Eof))
        else
          var chunk := Chunk(b.data, b.pos, n);
          (b.(pos := b.pos + |chunk|), Reply(chunk, 0, NoError))
      case Seek(offset, whence) =>
        var target := Target(|b.data|, b.pos, offset, whence);
        if target < 0 then (b, Reply([], 0, BadSeek)) else (b.(pos := target), Reply([], target, NoError))
      case ReadAll => (b, Reply(b.data, 0, NoError))
      case Close => (b, Reply([], 0, NoError))
  }

  /** All replies to a sequence of operations. */
  function Replies(b: Body, ops: seq<Op>, isDisk: bool): seq<Reply>
    decreases ops
  {
    if ops == [] then [] else [Act(b, ops[0], isDisk).1] + Replies(Act(b, ops[0], isDisk).0, ops[1..], isDisk)
  }

  // ----- Usage counters -----

  datatype Usage = Usage(diskFiles: int, diskBytes: int, memoryBuffers: int, memoryBytes: int)

  function Opened(u: Usage, isDisk: bool, size: nat): Usage {
    if isDisk then u.(diskFiles := u.diskFiles + 1, diskBytes := u.diskBytes + size)
    else u.(memoryBuffers := u.memoryBuffers + 1, memoryBytes := u.memoryBytes + size)
  }

  function NotBelowZero(n: int): int {
    if n < 0 then 0 else n
  }

  /** Disk counters are clamped at zero, memory counters are not. */
  function Released(u: Usage, isDisk: bool, size: nat): Usage {
    if isDisk then u.(diskFiles := NotBelowZero(u.diskFiles - 1), diskBytes := NotBelowZero(u.diskBytes - size))
    else u.(memoryBuffers := u.memoryBuffers - 1, memoryBytes := u.memoryBytes - size)
  }

  /** The package's global counters. */
  class Stats {
    var activeDiskFiles: int
    var currentDiskUsageBytes: int
    var activeMemoryBuffers: int
    var currentMemoryUsageBytes: int
    var diskCacheHits: int
    var memoryCacheHits: int

    function InUse(): Usage
      reads this
    {
      Usage(activeDiskFiles, currentDiskUsageBytes, activeMemoryBuffers, currentMemoryUsageBytes)
    }

    constructor ()
      ensures InUse() == Usage(0, 0, 0, 0) && diskCacheHits == 0 && memoryCacheHits == 0
    {
      activeDiskFiles, currentDiskUsageBytes, activeMemoryBuffers, currentMemoryUsageBytes := 0, 0, 0, 0;
      diskCacheHits, memoryCacheHits := 0, 0;
    }

    method IncrementDiskFiles(size: nat)
      modifies this`activeDiskFiles, this`currentDiskUsageBytes
      ensures InUse() == Opened(old(InUse()), true, size)
    {
      activeDiskFiles := activeDiskFiles + 1;
      currentDiskUsageBytes := currentDiskUsageBytes + size;
    }

    method DecrementDiskFiles(size: nat)
      modifies this`activeDiskFiles, this`currentDiskUsageBytes
      ensures InUse() == Released(old(InUse()), true, size)
    {
      activeDiskFiles := activeDiskFiles - 1;
      if activeDiskFiles < 0 {
        activeDiskFiles := 0;
      }
      currentDiskUsageBytes := currentDiskUsageBytes - size;
      if currentDiskUsageBytes < 0 {
        currentDiskUsageBytes := 0;
      }
    }

    method IncrementMemoryBuffers(size: nat)
      modifies this`activeMemoryBuffers, this`currentMemoryUsageBytes
      ensures InUse() == Opened(old(InUse()), false, size)
    {
      activeMemoryBuffers := activeMemoryBuffers + 1;
      currentMemoryUsageBytes := currentMemoryUsageBytes + size;
    }

    method DecrementMemoryBuffers(size: nat)
      modifies this`activeMemoryBuffers, this`currentMemoryUsageBytes
      ensures InUse() == Released(old(InUse()), false, size)
    {
      activeMemoryBuffers := activeMemoryBuffers - 1;
      currentMemoryUsageBytes := currentMemoryUsageBytes - size;
    }
  }

  // ----- The two kinds of storage -----

  class MemoryStorage {
    const data: Bytes
    const size: nat
    const stats: Stats
    var readerPos: nat
    var closed: bool

    ghost predicate Valid() {
      size == |data|
    }

    function View(): Body
      reads this
    {
      Body(data, readerPos, closed)
    }

    constructor (data: Bytes, stats: Stats)
      modifies stats
      ensures Valid() && View() == Body(data, 0, false) && this.stats == stats
      ensures stats.InUse() == Opened(old(stats.InUse()), false, |data|)
      ensures stats.diskCacheHits == old(stats.diskCacheHits) && stats.memoryCacheHits == old(stats.memoryCacheHits)
    {
      this.data, size, this.stats := data, |data|, stats;
      readerPos, closed := 0, false;
      new;
      stats.IncrementMemoryBuffers(|data|);
    }

    method Read(n: nat) returns (bytes: Bytes, error: Error)
      modifies this
      ensures (View(), Reply(bytes, 0, error)) == Act(old(View()), Op.Read(n), false)
    {
      if closed {
        return [], StorageClosed;
      }
      if readerPos >= |data| {
        return [], Eof;
      }
      bytes := data[readerPos..Min(readerPos + n, |data|)];
      readerPos := readerPos + |bytes|;
      error := NoError;
    }

    method Seek(offset: int, whence: Whence) returns (position: int, error: Error)
      modifies this
      ensures (View(), Reply([], position, error)) == Act(old(View()), Op.Seek(offset, whence), false)
    {
      if closed {
        return 0, StorageClosed;
      }
      var target := match whence
        case Start => offset
        case Current => readerPos + offset
        case End => |data| + offset;
      if target < 0 {
        return 0, BadSeek;
      }
      readerPos := target;
      return target, NoError;
    }

    method Bytes() returns (bytes: Bytes, error: Error)
      ensures (View(), Reply(bytes, 0, error)) == Act(View(), ReadAll, false)
    {
      return if closed then [] else data, if closed then StorageClosed else NoError;
    }

    /** Only the first close releases. */
    method Close()
      requires Valid()
      modifies this, stats
      ensures View() == Act(old(View()), Op.Close, false).0
      ensures stats.InUse() == if old(closed) then old(stats.InUse()) else Released(old(stats.InUse()), false, size)
    {
      if !closed {
        closed := true;
        stats.DecrementMemoryBuffers(size);
      }
    }
  }

  /** An open temporary file with its offset. */
  class File {
    var content: Bytes
    var offset: nat

    constructor ()
      ensures content == [] && offset == 0
    {
      content, offset := [], 0;
    }

    method Write(data: Bytes)
      requires offset == |content|
      modifies this
      ensures content == old(content) + data && offset == |content|
    {
      content := content + data;
      offset := offset + |data|;
    }

    method Read(n: nat) returns (bytes: Bytes, error: Error)
      modifies this`offset
      ensures bytes == Chunk(content, old(offset), n) && offset == old(offset) + |bytes|
      ensures error == if bytes == [] && n > 0 then Eof else NoError
    {
      bytes := if offset >= |content| then [] else content[offset..Min(offset + n, |content|)];
      offset := offset + |bytes|;
      error := if |bytes| == 0 && n > 0 then Eof else NoError;
    }

    method Seek(delta: int, whence: Whence) returns (position: int, error: Error)
      modifies this`offset
      ensures var target := Target(|content|, old(offset), delta, whence);
              if target < 0 then position == 0 && error == BadSeek && offset == old(offset)
              else position == target && error == NoError && offset == target
    {
      position := match whence
        case Start => delta
        case Current => offset + delta
        case End => |content| + delta;
      if position < 0 {
        return 0, BadSeek;
      }
      offset := position;
      error := NoError;
    }
  }

  class DiskStorage {
    const file: File
    const size: nat
    const stats: Stats
    var closed: bool

    ghost predicate Valid()
      reads this, file
    {
      size == |file.content|
    }

    function View(): Body
      reads this, file
    {
      Body(file.content, file.offset, closed)
    }

    constructor (data: Bytes, stats: Stats)
      modifies stats
      ensures Valid() && View() == Body(data, 0, false) && this.stats == stats && fresh(file)
      ensures stats.InUse() == Opened(old(stats.InUse()), true, |data|)
      ensures stats.diskCacheHits == old(stats.diskCacheHits) && stats.memoryCacheHits == old(stats.memoryCacheHits)
    {
      var f := new File();
      f.Write(data);
      var position, error := f.Seek(0, Start);
      file, size, this.stats, closed := f, |data|, stats, false;
      new;
      stats.IncrementDiskFiles(|data|);
    }

    method Read(n: nat) returns (bytes: Bytes, error: Error)
      modifies this, file
      ensures (View(), Reply(bytes, 0, error)) == Act(old(View()), Op.Read(n), true)
    {
      if closed {
        return [], StorageClosed;
      }
      bytes, error := file.Read(n);
    }

    method Seek(offset: int, whence: Whence) returns (position: int, error: Error)
      modifies this, file
      ensures (View(), Reply([], position, error)) == Act(old(View()), Op.Seek(offset, whence), true)
    {
      if closed {
        return 0, StorageClosed;
      }
      position, error := file.Seek(offset, whence);
    }

    /** `io.ReadFull`. */
    method ReadFull(n: nat) returns (bytes: Bytes, error: Error)
      modifies file`offset
      ensures bytes == Chunk(file.content, old(file.offset), n)
      ensures error == if |bytes| == n then NoError else if bytes == [] then Eof else UnexpectedEof
    {
      bytes, error := [], NoError;
      ghost var from := file.offset;
      while |bytes| < n && error == NoError
        invariant error == NoError || (error == Eof && file.offset >= |file.content| && |bytes| < n)
        invariant bytes == Chunk(file.content, from, |bytes|) && |bytes| <= n && file.offset == from + |bytes|
        decreases n - |bytes|, error == NoError
      {
        var more;
        more, error := file.Read(n - |bytes|);
        bytes := bytes + more;
      }
      if error == Eof && bytes != [] {
        error := UnexpectedEof;
      }
    }

    /** All of the content, leaving the position where it was. */
    method Bytes() returns (bytes: Bytes, error: Error)
      requires Valid()
      modifies file
      ensures Valid()
      ensures (View(), Reply(bytes, 0, error)) == Act(old(View()), ReadAll, true)
    {
      if closed {
        return [], StorageClosed;
      }
      var currentPos, e1 := file.Seek(0, Current);
      if e1 != NoError {
        return [], e1;
      }
      var position, e2 := file.Seek(0, Start);
      if e2 != NoError {
        return [], e2;
      }
      bytes, error := ReadFull(size);
      assert Chunk(file.content, 0, size) == file.content;
      if error != NoError {
        return [], error;
      }
      var restored, e3 := file.Seek(currentPos, Start);
      if e3 != NoError {
        return [], e3;
      }
    }

    method Close()
      requires Valid()
      modifies this, stats
      ensures View() == Act(old(View()), Op.Close, true).0
      ensures stats.InUse() == if old(closed) then old(stats.InUse()) else Released(old(stats.InUse()), true, size)
    {
      if !closed {
        closed := true;
        stats.DecrementDiskFiles(size);
      }
    }
  }

  // ----- Creating a storage -----

  datatype Settings = Settings(enabled: bool, threshold: int, maxBytes: int)

  /** `IsDiskCacheAvailable`. */
  predicate DiskAvailable(settings: Settings, u: Usage, size: int) {
    settings.enabled && u.diskBytes + size <= settings.maxBytes
  }

  predicate WantsDisk(settings: Settings, u: Usage, size: int) {
    settings.enabled && size >= settings.threshold && DiskAvailable(settings, u, size)
  }

  /** The interface both kinds implement. */
  datatype Storage = Memory(memory: MemoryStorage) | Disk(disk: DiskStorage)
  {
    /** The objects a storage consists of. */
    ghost function Parts(): set<object> {
      if Memory? then {memory} else {disk, disk.file}
    }

    function Home(): Stats {
      if Memory? then memory.stats else disk.stats
    }

    function View(): Body
      reads Parts()
    {
      if Memory? then memory.View() else disk.View()
    }

    ghost predicate Valid()
      reads Parts()
    {
      if Memory? then memory.Valid() else disk.Valid()
    }

    function Size(): nat {
      if Memory? then memory.size else disk.size
    }

    /** Any operation: the body acts as specified, and only a first close touches the counters. */
    method Perform(op: Op) returns (reply: Reply)
      requires Valid()
      modifies Parts(), Home()
      ensures Valid() && (View(), reply) == Act(old(View()), op, Disk?)
      ensures Home().InUse() == if op.Close? && !old(View().closed) then Released(old(Home().InUse()), Disk?, Size())
                                else old(Home().InUse())
    {
      var bytes, position, error := [], 0, NoError;
      match op {
        case Read(n) =>
          if Memory? { bytes, error := memory.Read(n); } else { bytes, error := disk.Read(n); }
        case Seek(offset, whence) =>
          if Memory? { position, error := memory.Seek(offset, whence); }
          else { position, error := disk.Seek(offset, whence); }
        case ReadAll =>
          if Memory? { bytes, error := memory.Bytes(); } else { bytes, error := disk.Bytes(); }
        case Close =>
          if Memory? { memory.Close(); } else { disk.Close(); }
      }
      reply := Reply(bytes, position, error);
    }

    /** Any sequence of operations. */
    method PerformAll(ops: seq<Op>) returns (replies: seq<Reply>)
      requires Valid()
      modifies Parts(), Home()
      ensures Valid() && replies == Replies(old(View()), ops, Disk?)
    {
      replies := [];
      ghost var all := Replies(View(), ops, Disk?);
      for n := 0 to |ops|
        invariant Valid() && all == replies + Replies(View(), ops[n..], Disk?)
      {
        RepliesCons(View(), ops[n..], ops[n + 1..], Disk?);
        var reply := Perform(ops[n]);
        replies := replies + [reply];
      }
    }
  }

  /** `CreateBodyStorage`; `diskWorks` says whether a temporary file can be created and written. */
  method CreateBodyStorage(data: Bytes, settings: Settings, stats: Stats, diskWorks: bool) returns (storage: Storage)
    modifies stats
    ensures fresh(storage.Parts()) && storage.Valid() && storage.Home() == stats && storage.Size() == |data|
    ensures storage.View() == Body(data, 0, false)
    ensures storage.Disk? <==> WantsDisk(settings, old(stats.InUse()), |data|) && diskWorks
    ensures stats.InUse() == Opened(old(stats.InUse()), storage.Disk?, |data|)
    ensures stats.diskCacheHits == old(stats.diskCacheHits) && stats.memoryCacheHits == old(stats.memoryCacheHits)
  {
    if settings.enabled && |data| >= settings.threshold &&
       settings.enabled && stats.currentDiskUsageBytes + |data| <= settings.maxBytes {
      if diskWorks {
        var disk := new DiskStorage(data, stats);
        return Disk(disk);
      }
    }
    var memory := new MemoryStorage(data, stats);
    return Memory(memory);
  }

  /** A request body still to be read: what arrives, and whether the connection then breaks. */
  datatype Source = Source(content: Bytes, breaks: bool)

  /** Reading through `io.LimitReader`: a break is noticed only if the limit was not reached before. */
  function ReadLimited(source: Source, limit: int): (r: (Bytes, bool)) {
    if limit <= 0 then ([], true)
    else if |source.content| >= limit then (source.content[..limit], true)
    else (source.content, !source.breaks)
  }

  datatype Created = Created(storage: Storage) | TooLarge | ReadFailed

  /** The announced length asks for the disk before anything is read. */
  predicate Announced(settings: Settings, u: Usage, contentLength: int) {
    contentLength > 0 && WantsDisk(settings, u, contentLength)
  }

  /** The whole body arrives within the limit, and a file is there if the announced length asks for one. */
  predicate Accepted(source: Source, contentLength: int, maxBytes: int, settings: Settings, u: Usage, diskWorks: bool) {
    (Announced(settings, u, contentLength) ==> diskWorks) && |source.content| <= maxBytes && !source.breaks
  }

  /** An accepted body goes to disk if its announced or its actual length asks for it. */
  predicate ReceivedOnDisk(source: Source, contentLength: int, settings: Settings, u: Usage, diskWorks: bool) {
    diskWorks && (Announced(settings, u, contentLength) || WantsDisk(settings, u, |source.content|))
  }

  /** `CreateBodyStorageFromReader`. An accepted body is the whole body; a refused one leaves no trace in the
      counters. */
  method CreateFromReader(source: Source, contentLength: int, maxBytes: int, settings: Settings, stats: Stats,
                          diskWorks: bool)
    returns (r: Created)
    modifies stats
    ensures r.Created? ==>
              && |source.content| <= maxBytes && !source.breaks
              && fresh(r.storage.Parts()) && r.storage.Valid() && r.storage.Home() == stats
              && r.storage.Size() == |source.content| && r.storage.View() == Body(source.content, 0, false)
              && stats.InUse() == Opened(old(stats.InUse()), r.storage.Disk?, |source.content|)
    ensures !r.Created? ==> stats.InUse() == old(stats.InUse())
    ensures stats.diskCacheHits == old(stats.diskCacheHits) + (if r.Created? && r.storage.Disk? then 1 else 0)
    ensures stats.memoryCacheHits == old(stats.memoryCacheHits) + (if r.Created? && r.storage.Memory? then 1 else 0)
    ensures r.Created? <==> Accepted(source, contentLength, maxBytes, settings, old(stats.InUse()), diskWorks)
    ensures r.Created? ==>
              (r.storage.Disk? <==> ReceivedOnDisk(source, contentLength, settings, old(stats.InUse()), diskWorks))
    ensures r.TooLarge? <==>
              |source.content| > maxBytes && (Announced(settings, old(stats.InUse()), contentLength) ==> diskWorks)
  {
    if settings.enabled && contentLength > 0 && contentLength >= settings.threshold &&
       settings.enabled && stats.currentDiskUsageBytes + contentLength <= settings.maxBytes {
      if !diskWorks {
        return ReadFailed;
      }
      var (written, ok) := ReadLimited(source, maxBytes + 1);
      if !ok {
        return ReadFailed;
      }
      if |written| > maxBytes {
        return TooLarge;
      }
      var disk := new DiskStorage(written, stats);
      stats.diskCacheHits := stats.diskCacheHits + 1;
      return Created.Created(Disk(disk));
    }
    var (data, ok) := ReadLimited(source, maxBytes + 1);
    if !ok {
      return ReadFailed;
    }
    if |data| > maxBytes {
      return TooLarge;
    }
    var storage := CreateBodyStorage(data, settings, stats, diskWorks);
    if storage.Memory? {
      stats.memoryCacheHits := stats.memoryCacheHits + 1;
    } else {
      stats.diskCacheHits := stats.diskCacheHits + 1;
    }
    return Created.Created(storage);
  }

  // ----- Laws -----

  /** The two kinds give different replies in one situation only: an empty read at or past the end. */
  lemma KindsDifferOnlyOnEmptyReads(b: Body, op: Op)
    ensures Act(b, op, true) == Act(b, op, false) <==>
            !(op.Read? && op.n == 0 && !b.closed && b.pos >= |b.data|)
  {
  }

  /** No sequence of operations without empty reads can tell them apart. */
  lemma {:induction false} KindsAreIndistinguishable(b: Body, ops: seq<Op>)
    requires forall i :: 0 <= i < |ops| ==> ops[i] != Read(0)
    ensures Replies(b, ops, true) == Replies(b, ops, false)
    decreases |ops|
  {
    if ops != [] {
      KindsDifferOnlyOnEmptyReads(b, ops[0]);
      KindsAreIndistinguishable(Act(b, ops[0], true).0, ops[1..]);
    }
  }

  /** The same of the objects: a memory storage and a disk storage that hold the same body give the same replies
      to any operations without empty reads. */
  method Compare(memory: Storage, disk: Storage, ops: seq<Op>) returns (a: seq<Reply>, b: seq<Reply>)
    requires memory.Memory? && disk.Disk? && memory.Valid() && disk.Valid()
    requires memory.Parts() !! disk.Parts() + {disk.Home()} && disk.Parts() !! {memory.Home()}
    requires memory.View() == disk.View() && forall i :: 0 <= i < |ops| ==> ops[i] != Read(0)
    modifies memory.Parts(), memory.Home(), disk.Parts(), disk.Home()
    ensures a == b
  {
    KindsAreIndistinguishable(memory.View(), ops);
    a := memory.PerformAll(ops);
    b := disk.PerformAll(ops);
  }

  function Joined(replies: seq<Reply>): Bytes {
    if replies == [] then [] else replies[0].bytes + Joined(replies[1..])
  }

  function Total(ops: seq<Op>): nat
    requires forall i :: 0 <= i < |ops| ==> ops[i].Read?
  {
    if ops == [] then 0 else ops[0].n + Total(ops[1..])
  }

  lemma RepliesCons(b: Body, ops: seq<Op>, rest: seq<Op>, isDisk: bool)
    requires ops != [] && rest == ops[1..]
    ensures Replies(b, ops, isDisk) == [Act(b, ops[0], isDisk).1] + Replies(Act(b, ops[0], isDisk).0, rest, isDisk)
  {
  }

  lemma JoinedCons(reply: Reply, replies: seq<Reply>)
    ensures Joined([reply] + replies) == reply.bytes + Joined(replies)
  {
    assert ([reply] + replies)[1..] == replies;
  }

  lemma ChunksJoin(data: Bytes, pos: nat, a: nat, b: nat, first: Bytes, more: Bytes)
    requires first == Chunk(data, pos, a) && more == Chunk(data, pos + |first|, b)
    ensures first + more == Chunk(data, pos, a + b)
  {
  }

  lemma JoinStep(data: Bytes, pos: nat, n: nat, total: nat, reply: Reply, replies: seq<Reply>)
    requires reply.bytes == Chunk(data, pos, n) && Joined(replies) == Chunk(data, pos + |reply.bytes|, total)
    ensures Joined([reply] + replies) == Chunk(data, pos, n + total)
  {
    JoinedCons(reply, replies);
    ChunksJoin(data, pos, n, total, reply.bytes, Joined(replies));
  }

  /** What one read does to an open body. */
  lemma ReadChunk(b: Body, op: Op, isDisk: bool) returns (next: Body, reply: Reply)
    requires !b.closed && op.Read?
    ensures Act(b, op, isDisk) == (next, reply)
    ensures reply.bytes == Chunk(b.data, b.pos, op.n) && next == b.(pos := b.pos + |reply.bytes|)
  {
    next, reply := Act(b, op, isDisk).0, Act(b, op, isDisk).1;
  }

  /** Reading in chunks of any sizes delivers the content from the position on, once and in order. */
  lemma {:induction false} ChunksReassemble(b: Body, ops: seq<Op>, isDisk: bool)
    requires !b.closed && forall i :: 0 <= i < |ops| ==> ops[i].Read?
    ensures Joined(Replies(b, ops, isDisk)) == Chunk(b.data, b.pos, Total(ops))
    decreases |ops|
  {
    if ops != [] {
      var rest := ops[1..];
      var next, reply := ReadChunk(b, ops[0], isDisk);
      ChunksReassemble(next, rest, isDisk);
      RepliesCons(b, ops, rest, isDisk);
      JoinStep(b.data, b.pos, ops[0].n, Total(rest), reply, Replies(next, rest, isDisk));
    }
  }

  // ----- The counters over a whole run -----

  /** A storage as its users see it. */
  datatype Held = Held(isDisk: bool, body: Body)

  /** What is open, counted from scratch. */
  function Census(held: seq<Held>): Usage {
    if held == [] then Usage(0, 0, 0, 0)
    else
      var u, last := Census(held[..|held| - 1]), held[|held| - 1];
      if last.body.closed then u else Opened(u, last.isDisk, |last.body.data|)
  }

  lemma {:induction false} CensusBounds(held: seq<Held>)
    ensures var u := Census(held); 0 <= u.diskFiles && 0 <= u.diskBytes && 0 <= u.memoryBuffers && 0 <= u.memoryBytes
  {
    if held != [] { CensusBounds(held[..|held| - 1]); }
  }

  /** The same storage at a later moment. */
  predicate Follows(h: Held, next: Held) {
    next.isDisk == h.isDisk && next.body.data == h.body.data && (h.body.closed ==> next.body.closed)
  }

  lemma UpdateInit(held: seq<Held>, index: nat, next: Held)
    requires index < |held|
    ensures var after := held[index := next];
            && after[..|after| - 1] ==
               (if index == |held| - 1 then held[..|held| - 1] else held[..|held| - 1][index := next])
            && after[|after| - 1] == if index == |held| - 1 then next else held[|held| - 1]
  {
  }

  /** Closing an open storage takes its share out of the census, so the clamp never acts. */
  lemma {:induction false} CensusAfterClose(held: seq<Held>, index: nat, next: Held)
    requires index < |held| && Follows(held[index], next) && !held[index].body.closed && next.body.closed
    ensures Census(held[index := next]) == Released(Census(held), next.isDisk, |next.body.data|)
    ensures Census(held) == Opened(Census(held[index := next]), next.isDisk, |next.body.data|)
  {
    var init := held[..|held| - 1];
    UpdateInit(held, index, next);
    CensusBounds(init);
    if index < |init| {
      CensusAfterClose(init, index, next);
      CensusBounds(init[index := next]);
    }
  }

  /** Anything else leaves it alone. */
  lemma {:induction false} CensusSame(held: seq<Held>, index: nat, next: Held)
    requires index < |held| && Follows(held[index], next) && held[index].body.closed == next.body.closed
    ensures Census(held[index := next]) == Census(held)
  {
    UpdateInit(held, index, next);
    if index < |held| - 1 {
      CensusSame(held[..|held| - 1], index, next);
    }
  }

  lemma CensusPush(held: seq<Held>, h: Held)
    requires !h.body.closed
    ensures Census(held + [h]) == Opened(Census(held), h.isDisk, |h.body.data|)
  {
    assert (held + [h])[..|held|] == held;
  }

  // ----- What a sequence of commands should lead to -----

  datatype Command =
    | Create(data: Bytes, settings: Settings, diskWorks: bool)
    | Receive(source: Source, contentLength: int, maxBytes: int, settings: Settings, diskWorks: bool)
    | Use(index: nat, op: Op)

  function Used(held: seq<Held>, index: nat, op: Op): seq<Held>
    requires index < |held|
  {
    held[index := held[index].(body := Act(held[index].body, op, held[index].isDisk).0)]
  }

  /** The storages after a command; the usage it decides by is the census. */
  function After(held: seq<Held>, command: Command): seq<Held> {
    match command
    case Create(data, settings, diskWorks) =>
      held + [Held(WantsDisk(settings, Census(held), |data|) && diskWorks, Body(data, 0, false))]
    case Receive(source, contentLength, maxBytes, settings, diskWorks) =>
      if Accepted(source, contentLength, maxBytes, settings, Census(held), diskWorks) then
        held + [Held(ReceivedOnDisk(source, contentLength, settings, Census(held), diskWorks),
                     Body(source.content, 0, false))]
      else held
    case Use(index, op) => if index < |held| then Used(held, index, op) else held
  }

  function Replay(commands: seq<Command>): seq<Held> {
    if commands == [] then [] else After(Replay(commands[..|commands| - 1]), commands[|commands| - 1])
  }

  lemma ReplayNext(commands: seq<Command>, n: nat)
    requires n < |commands|
    ensures Replay(commands[..n + 1]) == After(Replay(commands[..n]), commands[n])
  {
    assert commands[..n + 1][..n] == commands[..n];
  }

  lemma ActFollows(h: Held, op: Op)
    ensures Follows(h, h.(body := Act(h.body, op, h.isDisk).0))
    ensures Act(h.body, op, h.isDisk).0.closed == (h.body.closed || op.Close?)
  {
  }

  /** The census after an operation: only a first close takes a share out. */
  lemma CensusAfterUse(held: seq<Held>, index: nat, op: Op)
    requires index < |held|
    ensures Census(Used(held, index, op)) ==
            if op.Close? && !held[index].body.closed
            then Released(Census(held), held[index].isDisk, |held[index].body.data|)
            else Census(held)
  {
    var next := held[index].(body := Act(held[index].body, op, held[index].isDisk).0);
    ActFollows(held[index], op);
    if op.Close? && !held[index].body.closed {
      CensusAfterClose(held, index, next);
    } else {
      CensusSame(held, index, next);
    }
  }

  // ----- ... and the objects that do it -----

  function HeldBy(s: Storage): Held
    reads s.Parts()
  {
    Held(s.Disk?, s.View())
  }

  /** All storages ever created against one set of counters, closed ones included. */
  class Registry {
    const stats: Stats
    var storages: seq<Storage>
    ghost var repr: set<object>

    /** The storages consist of objects of `repr`. */
    ghost predicate Owns()
      reads this
    {
      this !in repr && stats !in repr && forall i :: 0 <= i < |storages| ==> storages[i].Parts() <= repr
    }

    ghost function Bodies(): seq<Held>
      requires Owns()
      reads this, repr
    {
      seq(|storages|, i requires 0 <= i < |storages| && Owns() reads this, repr => HeldBy(storages[i]))
    }

    /** The storages are well-formed, of these counters, and share no object. */
    ghost predicate Separate()
      reads this, repr
    {
      && Owns()
      && (forall i :: 0 <= i < |storages| ==> storages[i].Valid() && storages[i].Home() == stats)
      && (forall i, j :: 0 <= i < j < |storages| ==> storages[i].Parts() !! storages[j].Parts())
    }

    /** The counters are exactly what is open. */
    ghost predicate Valid()
      reads this, stats, repr
    {
      Separate() && stats.InUse() == Census(Bodies())
    }

    constructor ()
      ensures Valid() && storages == [] && fresh(stats) && repr == {}
    {
      var s := new Stats();
      stats, storages, repr := s, [], {};
    }

    /** Takes up a new storage that has just been counted. */
    method Add(storage: Storage, ghost before: seq<Held>)
      requires Separate() && storage.Parts() !! repr + {this, stats}
      requires storage.Valid() && storage.Home() == stats && !storage.View().closed
      requires before == Bodies()
      requires stats.InUse() == Opened(Census(before), storage.Disk?, |storage.View().data|)
      modifies this
      ensures Valid() && storages == old(storages) + [storage] && repr == old(repr) + storage.Parts()
      ensures Bodies() == before + [HeldBy(storage)]
    {
      ghost var known := storages;
      storages, repr := storages + [storage], repr + storage.Parts();
      assert storages[|known|] == storage && forall i :: 0 <= i < |known| ==> storages[i] == known[i];
      assert Owns();
      assert Separate();
      assert Bodies() == before + [HeldBy(storage)];
      CensusPush(before, HeldBy(storage));
    }

    method Create(data: Bytes, settings: Settings, diskWorks: bool) returns (storage: Storage)
      requires Valid()
      modifies this, stats
      ensures Valid() && fresh(repr - old(repr)) && storages == old(storages) + [storage]
      ensures Bodies() == After(old(Bodies()), Command.Create(data, settings, diskWorks))
    {
      ghost var before := Bodies();
      storage := CreateBodyStorage(data, settings, stats, diskWorks);
      assert Bodies() == before;
      Add(storage, before);
    }

    method Receive(source: Source, contentLength: int, maxBytes: int, settings: Settings, diskWorks: bool)
      returns (r: Created)
      requires Valid()
      modifies this, stats
      ensures Valid() && fresh(repr - old(repr))
      ensures storages == if r.Created? then old(storages) + [r.storage] else old(storages)
      ensures Bodies() ==
              After(old(Bodies()), Command.Receive(source, contentLength, maxBytes, settings, diskWorks))
    {
      ghost var before := Bodies();
      r := CreateFromReader(source, contentLength, maxBytes, settings, stats, diskWorks);
      assert Bodies() == before;
      if r.Created? {
        Add(r.storage, before);
      }
    }

    /** One operation, before the counters are looked at. */
    method Touch(index: nat, op: Op) returns (reply: Reply)
      requires Separate() && index < |storages|
      modifies storages[index].Parts(), stats
      ensures Separate() && repr == old(repr)
      ensures Bodies() == Used(old(Bodies()), index, op)
      ensures reply == Act(old(storages[index].View()), op, storages[index].Disk?).1
      ensures stats.InUse() ==
              if op.Close? && !old(storages[index].View().closed)
              then Released(old(stats.InUse()), storages[index].Disk?, |old(storages[index].View().data)|)
              else old(stats.InUse())
    {
      ghost var before := Bodies();
      reply := storages[index].Perform(op);
      assert Bodies() == Used(before, index, op);
    }

    /** Any operation on any of the storages, a second close included. */
    method Use(index: nat, op: Op) returns (reply: Reply)
      requires Valid() && index < |storages|
      modifies storages[index].Parts(), stats
      ensures Valid() && repr == old(repr)
      ensures Bodies() == After(old(Bodies()), Command.Use(index, op))
      ensures reply == Act(old(storages[index].View()), op, storages[index].Disk?).1
    {
      CensusAfterUse(Bodies(), index, op);
      reply := Touch(index, op);
    }

    method Obey(command: Command)
      requires Valid()
      modifies this, stats, repr
      ensures Valid() && fresh(repr - old(repr))
      ensures Bodies() == After(old(Bodies()), command)
    {
      match command {
        case Create(data, settings, diskWorks) =>
          var storage := Create(data, settings, diskWorks);
        case Receive(source, contentLength, maxBytes, settings, diskWorks) =>
          var created := Receive(source, contentLength, maxBytes, settings, diskWorks);
        case Use(index, op) =>
          if index < |storages| {
            var reply := Use(index, op);
          }
      }
    }
  }

  /** After any sequence of creations, receptions and operations, double closes included, the storages are what
      the commands call for, and the counters are the number and the bytes of those that are open. */
  method RunAll(commands: seq<Command>) returns (registry: Registry)
    ensures fresh(registry) && registry.Valid() && registry.Bodies() == Replay(commands)
    ensures registry.stats.InUse() == Census(Replay(commands))
  {
    registry := new Registry();
    for n := 0 to |commands|
      invariant fresh(registry) && fresh(registry.stats) && registry.Valid() && fresh(registry.repr)
      invariant registry.Bodies() == Replay(commands[..n])
    {
      ghost var before := Replay(commands[..n]);
      registry.Obey(commands[n]);
      assert Replay(commands[..n + 1]) == After(before, commands[n]) by { ReplayNext(commands, n); }
    }
    assert commands[..|commands|] == commands;
  }

  // ----- The disk budget -----

  /** The settings a command decides by. */
  predicate Within(command: Command, budget: int) {
    match command
    case Create(_, settings, _) => settings.maxBytes <= budget
    case Receive(source, contentLength, _, settings, _) =>
      settings.maxBytes <= budget && |source.content| <= contentLength
    case Use(_, _) => true
  }

  lemma PushWithin(held: seq<Held>, h: Held, budget: int)
    requires !h.body.closed && Census(held).diskBytes <= budget
    requires h.isDisk ==> Census(held).diskBytes + |h.body.data| <= budget
    ensures Census(held + [h]).diskBytes <= budget
  {
    CensusPush(held, h);
  }

  lemma UseWithin(held: seq<Held>, index: nat, op: Op, budget: int)
    requires index < |held| && Census(held).diskBytes <= budget
    ensures Census(Used(held, index, op)).diskBytes <= budget
  {
    CensusBounds(held);
    CensusAfterUse(held, index, op);
  }

  lemma StepWithin(held: seq<Held>, command: Command, budget: int)
    requires Within(command, budget) && Census(held).diskBytes <= budget
    ensures Census(After(held, command)).diskBytes <= budget
  {
    var u := Census(held);
    match command
    case Create(data, settings, diskWorks) =>
      PushWithin(held, Held(WantsDisk(settings, u, |data|) && diskWorks, Body(data, 0, false)), budget);
    case Receive(source, contentLength, maxBytes, settings, diskWorks) =>
      if Accepted(source, contentLength, maxBytes, settings, u, diskWorks) {
        PushWithin(held, Held(ReceivedOnDisk(source, contentLength, settings, u, diskWorks),
                              Body(source.content, 0, false)), budget);
      }
    case Use(index, op) =>
      if index < |held| { UseWithin(held, index, op, budget); }
  }

  /** As long as no body is longer than announced, the files in use never exceed the budget. */
  lemma {:induction false} BudgetHolds(commands: seq<Command>, budget: nat)
    requires forall i :: 0 <= i < |commands| ==> Within(commands[i], budget)
    ensures Census(Replay(commands)).diskBytes <= budget
    decreases |commands|
  {
    if commands != [] {
      BudgetHolds(commands[..|commands| - 1], budget);
      StepWithin(Replay(commands[..|commands| - 1]), commands[|commands| - 1], budget);
    }
  }

  /** The command never takes the files in use past the budget. */
  ghost predicate KeepsBudget(command: Command, budget: int) {
    forall held :: Census(held).diskBytes <= budget ==> Census(After(held, command)).diskBytes <= budget
  }

  lemma PushOver(held: seq<Held>, data: Bytes, budget: int)
    requires budget < Census(held).diskBytes + |data|
    ensures Census(held + [Held(true, Body(data, 0, false))]).diskBytes > budget
  {
    CensusPush(held, Held(true, Body(data, 0, false)));
  }

  /** One open file of `n` bytes. */
  function FileOf(n: nat): Held {
    Held(true, Body(seq(n, _ => 0), 0, false))
  }

  lemma OneFile(n: nat)
    ensures Census([FileOf(n)]) == Usage(1, n, 0, 0)
  {
    CensusPush([], FileOf(n));
    assert [] + [FileOf(n)] == [FileOf(n)];
  }

  /** A reception whose announced length can ask for the disk keeps to the budget exactly when the body is no
      longer than announced. */
  lemma BudgetIsKeptExactly(source: Source, contentLength: int, maxBytes: int, settings: Settings)
    requires settings.enabled && 0 < contentLength && settings.threshold <= contentLength <= settings.maxBytes
    requires |source.content| <= maxBytes && !source.breaks
    ensures KeepsBudget(Receive(source, contentLength, maxBytes, settings, true), settings.maxBytes) <==>
            |source.content| <= contentLength
  {
    var command, budget := Receive(source, contentLength, maxBytes, settings, true), settings.maxBytes;
    if |source.content| <= contentLength {
      forall held | Census(held).diskBytes <= budget
        ensures Census(After(held, command)).diskBytes <= budget
      {
        StepWithin(held, command, budget);
      }
    } else {
      var held := [FileOf(budget - contentLength)];
      OneFile(budget - contentLength);
      PushOver(held, source.content, budget);
      assert After(held, command) == held + [Held(true, Body(source.content, 0, false))];
    }
  }
}
