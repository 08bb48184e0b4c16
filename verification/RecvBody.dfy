/** Reassembling an image from numbered datagrams that come in any order. */
module RecvBodies {
  import opened Bytes
  import opened Options

  const CHUNK_SIZE := 1024
  const HEADER_SIZE := 4

  /** What one round of waiting and receiving brings. */
  datatype Event = Timeout | Error | Datagram(bytes: seq<byte>)

  // ----- framing

  /** Network byte order. */
  function IndexOf(bytes: seq<byte>): nat
    requires |bytes| >= HEADER_SIZE
  {
    var b: seq<int> := [bytes[0], bytes[1], bytes[2], bytes[3]];
    b[0] * 0x100_0000 + b[1] * 0x1_0000 + b[2] * 0x100 + b[3]
  }

  function NetworkOrder(i: nat): (r: seq<byte>)
    requires i < 0x1_0000_0000
    ensures |r| == HEADER_SIZE
  {
    [i / 0x100_0000, i / 0x1_0000 % 0x100, i / 0x100 % 0x100, i % 0x100]
  }

  lemma IndexComesBack(i: nat, data: seq<byte>)
    requires i < 0x1_0000_0000
    ensures IndexOf(NetworkOrder(i) + data) == i
  {
    var d := NetworkOrder(i) + data;
    assert d[0] == i / 0x100_0000 && d[1] == i / 0x1_0000 % 0x100;
    assert d[2] == i / 0x100 % 0x100 && d[3] == i % 0x100;
  }

  function Min(a: int, b: int): int {
    if a < b then a else b
  }

  /** The `i`-th chunk of an image. */
  function ChunkData(image: seq<byte>, i: nat): (r: seq<byte>)
    requires i * CHUNK_SIZE < |image|
    ensures 0 < |r| <= CHUNK_SIZE
  {
    image[i * CHUNK_SIZE..i * CHUNK_SIZE + Min(CHUNK_SIZE, |image| - i * CHUNK_SIZE)]
  }

  /** The bytes of the datagram in which the server sends it. */
  function ChunkBytes(image: seq<byte>, i: nat): seq<byte>
    requires i * CHUNK_SIZE < |image| && i < 0x1_0000_0000
  {
    NetworkOrder(i) + ChunkData(image, i)
  }

  // ----- what receiving does

  datatype Progress = Progress(buf: seq<byte>, received: seq<bool>)

  function Fresh(memSize: nat, totalChunks: nat): Progress {
    Progress(seq(memSize, _ => 0), seq(totalChunks, _ => false))
  }

  /** The receive buffer takes no more than one chunk and its index. */
  function Read(bytes: seq<byte>): seq<byte> {
    if |bytes| <= CHUNK_SIZE + HEADER_SIZE then bytes else bytes[..CHUNK_SIZE + HEADER_SIZE]
  }

  /** Whether a datagram is long enough to have an index and its data lies within the buffer. */
  predicate Accepted(bytes: seq<byte>, memSize: nat) {
    |bytes| >= HEADER_SIZE && IndexOf(bytes) * CHUNK_SIZE + (|bytes| - HEADER_SIZE) <= memSize
  }

  function Written(buf: seq<byte>, offset: nat, data: seq<byte>): seq<byte>
    requires offset + |data| <= |buf|
  {
    buf[..offset] + data + buf[offset + |data|..]
  }

  function Taken(p: Progress, bytes: seq<byte>): Progress
    requires Accepted(bytes, |p.buf|) ==> IndexOf(bytes) < |p.received|
  {
    if !Accepted(bytes, |p.buf|) then p
    else Progress(Written(p.buf, IndexOf(bytes) * CHUNK_SIZE, bytes[HEADER_SIZE..]), p.received[IndexOf(bytes) := true])
  }

  /** No datagram that is accepted has an index past the announced number of chunks. */
  predicate InRange(events: seq<Event>, memSize: nat, totalChunks: nat) {
    forall k | 0 <= k < |events| :: events[k].Datagram? && Accepted(Read(events[k].bytes), memSize) ==>
      IndexOf(Read(events[k].bytes)) < totalChunks
  }

  predicate Complete(received: seq<bool>) {
    forall i | 0 <= i < |received| :: received[i]
  }

  /** The buffer once every chunk has come, or nothing when waiting or receiving fails before. */
  function Reassembled(events: seq<Event>, p: Progress): Option<seq<byte>>
    requires InRange(events, |p.buf|, |p.received|)
    decreases |events|
  {
    if Complete(p.received) then Some(p.buf)
    else if events == [] || !events[0].Datagram? then None
    else Reassembled(events[1..], Taken(p, Read(events[0].bytes)))
  }

  function CountSet(flags: seq<bool>): (n: nat)
    ensures n <= |flags|
  {
    if flags == [] then 0 else CountSet(flags[..|flags| - 1]) + if flags[|flags| - 1] then 1 else 0
  }

  lemma {:induction false} CountUpdated(flags: seq<bool>, i: nat)
    requires i < |flags| && !flags[i]
    ensures CountSet(flags[i := true]) == CountSet(flags) + 1
  {
    var last := |flags| - 1;
    if i == last {
      assert flags[i := true][..last] == flags[..last];
    } else {
      assert flags[i := true][..last] == flags[..last][i := true];
      CountUpdated(flags[..last], i);
    }
  }

  lemma {:induction false} CountComplete(flags: seq<bool>)
    ensures CountSet(flags) == |flags| <==> Complete(flags)
  {
    if flags != [] {
      CountComplete(flags[..|flags| - 1]);
      if Complete(flags) { assert Complete(flags[..|flags| - 1]); }
    }
  }

  lemma {:induction false} CountNone(n: nat)
    ensures CountSet(seq(n, _ => false)) == 0
  {
    if n > 0 {
      CountNone(n - 1);
      assert seq(n, _ => false)[..n - 1] == seq(n - 1, _ => false);
    }
  }

  method CopyInto(buf: array<byte>, offset: nat, data: seq<byte>)
    requires offset + |data| <= buf.Length
    modifies buf
    ensures buf[..] == Written(old(buf[..]), offset, data)
  {
    var i := 0;
    while i < |data|
      invariant 0 <= i <= |data|
      invariant forall k | 0 <= k < buf.Length ::
        buf[k] == if offset <= k < offset + i then data[k - offset] else old(buf[k])
    {
      buf[offset + i] := data[i];
      i := i + 1;
    }
  }

  method RecvBody(events: seq<Event>, memSize: nat, totalChunks: nat) returns (r: seq<byte>)
    requires InRange(events, memSize, totalChunks)
    ensures r == match Reassembled(events, Fresh(memSize, totalChunks)) case Some(buf) => buf case None => []
  {
    hide IndexOf, CountSet, Written, Complete, Read;
    var buf := new byte[memSize](_ => 0);
    var receivedChunks := new bool[totalChunks](_ => false);
    assert Progress(buf[..], receivedChunks[..]) == Fresh(memSize, totalChunks);
    CountNone(totalChunks);
    var chunksReceivedCount := 0;
    var next := 0;
    while chunksReceivedCount < totalChunks
      invariant next <= |events|
      invariant chunksReceivedCount == CountSet(receivedChunks[..])
      invariant InRange(events[next..], memSize, totalChunks)
      invariant Reassembled(events, Fresh(memSize, totalChunks)) ==
                Reassembled(events[next..], Progress(buf[..], receivedChunks[..]))
      decreases |events| - next
    {
      CountComplete(receivedChunks[..]);
      if next == |events| || !events[next].Datagram? {
        return [];
      }
      chunksReceivedCount := Receive(buf, receivedChunks, chunksReceivedCount, Read(events[next].bytes));
      assert events[next..][1..] == events[next + 1..];
      next := next + 1;
    }
    CountComplete(receivedChunks[..]);
    return buf[..];
  }

  method Receive(buf: array<byte>, receivedChunks: array<bool>, count: nat, chunk: seq<byte>) returns (counted: nat)
    requires Accepted(chunk, buf.Length) ==> IndexOf(chunk) < receivedChunks.Length
    requires count == CountSet(receivedChunks[..])
    modifies buf, receivedChunks
    ensures Progress(buf[..], receivedChunks[..]) == Taken(old(Progress(buf[..], receivedChunks[..])), chunk)
    ensures counted == CountSet(receivedChunks[..])
  {
    hide IndexOf, CountSet, Written;
    counted := count;
    if |chunk| < HEADER_SIZE {
      return;
    }
    var chunkIdx := IndexOf(chunk);
    var dataSize := |chunk| - HEADER_SIZE;
    var offset := chunkIdx * CHUNK_SIZE;
    if offset + dataSize > buf.Length {
      return;
    }
    CopyInto(buf, offset, chunk[HEADER_SIZE..]);
    if !receivedChunks[chunkIdx] {
      CountUpdated(receivedChunks[..], chunkIdx);
      ghost var was := receivedChunks[..];
      receivedChunks[chunkIdx] := true;
      assert receivedChunks[..] == was[chunkIdx := true];
      counted := counted + 1;
    } else {
      assert receivedChunks[..] == receivedChunks[..][chunkIdx := true];
    }
  }

  // ----- streams of an image's own chunks

  predicate IsChunk(event: Event, image: seq<byte>, i: nat) {
    i * CHUNK_SIZE < |image| && i < 0x1_0000_0000 && event == Datagram(ChunkBytes(image, i))
  }

  /** A failure, a datagram too short to carry an index, or one of the chunks of `image`. */
  ghost predicate Genuine(event: Event, image: seq<byte>, totalChunks: nat) {
    event.Datagram? ==>
      |event.bytes| < HEADER_SIZE || exists i :: 0 <= i < totalChunks && IsChunk(event, image, i)
  }

  ghost predicate AllGenuine(events: seq<Event>, image: seq<byte>, totalChunks: nat) {
    forall k | 0 <= k < |events| :: Genuine(events[k], image, totalChunks)
  }

  lemma ChunkRead(image: seq<byte>, i: nat)
    requires i * CHUNK_SIZE < |image| && i < 0x1_0000_0000
    ensures var d := ChunkBytes(image, i);
            Read(d) == d && |d| >= HEADER_SIZE && IndexOf(d) == i && d[HEADER_SIZE..] == ChunkData(image, i)
  {
    IndexComesBack(i, ChunkData(image, i));
  }

  /** The chunk's place lies within the buffer. */
  predicate Fits(image: seq<byte>, memSize: nat, i: nat) {
    Min((i + 1) * CHUNK_SIZE, |image|) <= memSize
  }

  lemma ChunkAccepted(image: seq<byte>, i: nat, memSize: nat)
    requires i * CHUNK_SIZE < |image| && i < 0x1_0000_0000
    ensures Accepted(ChunkBytes(image, i), memSize) <==> Fits(image, memSize, i)
  {
    hide IndexOf;
    ChunkRead(image, i);
  }

  /** The chunks of an image never leave the announced range, so receiving them is always defined. */
  lemma GenuineInRange(events: seq<Event>, image: seq<byte>, memSize: nat, totalChunks: nat)
    requires AllGenuine(events, image, totalChunks)
    ensures InRange(events, memSize, totalChunks)
  {
    hide IndexOf, ChunkBytes;
    forall k | 0 <= k < |events| && events[k].Datagram? && Accepted(Read(events[k].bytes), memSize)
      ensures IndexOf(Read(events[k].bytes)) < totalChunks
    {
      assert Genuine(events[k], image, totalChunks);
      assert |events[k].bytes| >= HEADER_SIZE;
      var i :| 0 <= i < totalChunks && IsChunk(events[k], image, i);
      ChunkRead(image, i);
    }
  }

  /** A byte of the image when its chunk has been received, and zero otherwise. */
  function ByteSoFar(received: seq<bool>, image: seq<byte>, k: nat): byte {
    if k < |image| && k / CHUNK_SIZE < |received| && received[k / CHUNK_SIZE] then image[k] else 0
  }

  predicate Agrees(p: Progress, image: seq<byte>) {
    forall k | 0 <= k < |p.buf| :: p.buf[k] == ByteSoFar(p.received, image, k)
  }

  lemma WrittenAt(buf: seq<byte>, offset: nat, data: seq<byte>, k: nat)
    requires offset + |data| <= |buf|
    ensures |Written(buf, offset, data)| == |buf|
    ensures k < |buf| ==>
              Written(buf, offset, data)[k] == if offset <= k < offset + |data| then data[k - offset] else buf[k]
  {
  }

  lemma ChunkAt(image: seq<byte>, i: nat, k: nat)
    requires i * CHUNK_SIZE < |image|
    ensures k / CHUNK_SIZE == i && k < |image| <==> i * CHUNK_SIZE <= k < i * CHUNK_SIZE + |ChunkData(image, i)|
    ensures k / CHUNK_SIZE == i && k < |image| ==> ChunkData(image, i)[k - i * CHUNK_SIZE] == image[k]
  {
  }

  lemma TakingAgrees(p: Progress, image: seq<byte>, i: nat)
    requires Agrees(p, image) && i < |p.received| && i * CHUNK_SIZE < |image| && i < 0x1_0000_0000
    requires Fits(image, |p.buf|, i)
    ensures IndexOf(ChunkBytes(image, i)) == i
    ensures var q := Taken(p, ChunkBytes(image, i));
            Agrees(q, image) && q.received == p.received[i := true] && |q.buf| == |p.buf|
  {
    hide IndexOf, ChunkBytes, ChunkData, Written, Fits;
    ChunkRead(image, i);
    ChunkAccepted(image, i, |p.buf|);
    var q := Taken(p, ChunkBytes(image, i));
    var data := ChunkData(image, i);
    WrittenAt(p.buf, i * CHUNK_SIZE, data, 0);
    forall k | 0 <= k < |q.buf|
      ensures q.buf[k] == ByteSoFar(q.received, image, k)
    {
      WrittenAt(p.buf, i * CHUNK_SIZE, data, k);
      ChunkAt(image, i, k);
    }
  }

  /** Chunk `i` comes before waiting or receiving fails. */
  predicate Comes(events: seq<Event>, image: seq<byte>, i: nat)
    decreases |events|
  {
    events != [] && events[0].Datagram? && (IsChunk(events[0], image, i) || Comes(events[1..], image, i))
  }

  predicate AllCome(events: seq<Event>, image: seq<byte>, totalChunks: nat) {
    forall i | 0 <= i < totalChunks :: Comes(events, image, i)
  }

  /** Chunk `i` is there, or fits and comes in time. */
  predicate Delivered(events: seq<Event>, p: Progress, image: seq<byte>, i: nat)
    requires i < |p.received|
  {
    p.received[i] || (Fits(image, |p.buf|, i) && Comes(events, image, i))
  }

  predicate AllDelivered(events: seq<Event>, p: Progress, image: seq<byte>) {
    forall i | 0 <= i < |p.received| :: Delivered(events, p, image, i)
  }

  lemma JunkIgnored(p: Progress, bytes: seq<byte>)
    requires |bytes| < HEADER_SIZE
    ensures Taken(p, Read(bytes)) == p
  {
  }

  lemma OneIndex(event: Event, image: seq<byte>, i: nat, j: nat)
    requires IsChunk(event, image, i) && IsChunk(event, image, j)
    ensures i == j
  {
    ChunkRead(image, i);
    ChunkRead(image, j);
  }

  /** One genuine datagram: what is delivered by it and the rest is what is delivered by the rest. */
  lemma TakingGenuine(p: Progress, event: Event, rest: seq<Event>, image: seq<byte>)
    requires event.Datagram? && Genuine(event, image, |p.received|) && Agrees(p, image)
    requires Accepted(Read(event.bytes), |p.buf|) ==> IndexOf(Read(event.bytes)) < |p.received|
    ensures var q := Taken(p, Read(event.bytes));
            && Agrees(q, image) && |q.received| == |p.received| && |q.buf| == |p.buf|
            && (AllDelivered(rest, q, image) <==> AllDelivered([event] + rest, p, image))
  {
    hide IndexOf, ChunkBytes, Accepted, Taken, Agrees, Fits;
    var q := Taken(p, Read(event.bytes));
    assert ([event] + rest)[1..] == rest;
    if |event.bytes| < HEADER_SIZE {
      JunkIgnored(p, event.bytes);
      forall i | 0 <= i < |p.received|
        ensures Delivered([event] + rest, p, image, i) <==> Delivered(rest, q, image, i)
      {
        if IsChunk(event, image, i) { ChunkRead(image, i); }
      }
    } else {
      var j :| 0 <= j < |p.received| && IsChunk(event, image, j);
      ChunkRead(image, j);
      ChunkAccepted(image, j, |p.buf|);
      if Fits(image, |p.buf|, j) { TakingAgrees(p, image, j); } else { Refused(p, event.bytes); }
      forall i | 0 <= i < |p.received|
        ensures Delivered([event] + rest, p, image, i) <==> Delivered(rest, q, image, i)
      {
        if IsChunk(event, image, i) { OneIndex(event, image, i, j); }
      }
    }
  }

  lemma Refused(p: Progress, bytes: seq<byte>)
    requires !Accepted(bytes, |p.buf|)
    ensures Taken(p, bytes) == p
  {
  }

  /** A stream of genuine chunks, in any order, repeated and mixed with short junk: it is put together
      exactly when every chunk fits and comes in time, and then the bytes are the image's, zero past
      the last chunk. */
  lemma {:induction false} GenuineStream(events: seq<Event>, p: Progress, image: seq<byte>)
    requires AllGenuine(events, image, |p.received|) && InRange(events, |p.buf|, |p.received|)
    requires Agrees(p, image)
    ensures var r := Reassembled(events, p);
            && (r.Some? <==> AllDelivered(events, p, image))
            && (r.Some? ==> Agrees(Progress(r.value, seq(|p.received|, _ => true)), image) && |r.value| == |p.buf|)
    decreases |events|
  {
    hide Read, IndexOf, Accepted, Taken, Genuine, IsChunk, Fits;
    if Complete(p.received) {
      assert p.received == seq(|p.received|, _ => true);
    } else if events == [] || !events[0].Datagram? {
      var i :| 0 <= i < |p.received| && !p.received[i];
      assert !Delivered(events, p, image, i);
    } else {
      var q := Taken(p, Read(events[0].bytes));
      TakingGenuine(p, events[0], events[1..], image);
      assert events == [events[0]] + events[1..];
      GenuineStream(events[1..], q, image);
    }
  }

  lemma FreshAgrees(memSize: nat, totalChunks: nat, image: seq<byte>)
    ensures Agrees(Fresh(memSize, totalChunks), image)
  {
  }

  /** With a buffer of the image's size and as many chunks as the image has, the image arrives whole or
      not at all, and it arrives exactly when all of its chunks come before the first failure. */
  lemma ImageOrNothing(events: seq<Event>, image: seq<byte>, totalChunks: nat)
    requires totalChunks == (|image| + CHUNK_SIZE - 1) / CHUNK_SIZE <= 0x1_0000_0000
    requires AllGenuine(events, image, totalChunks)
    ensures InRange(events, |image|, totalChunks)
    ensures var r := Reassembled(events, Fresh(|image|, totalChunks));
            && (r.Some? ==> r.value == image)
            && (r.Some? <==> AllCome(events, image, totalChunks))
  {
    hide Taken, AllGenuine, Read;
    var p := Fresh(|image|, totalChunks);
    GenuineInRange(events, image, |image|, totalChunks);
    FreshAgrees(|image|, totalChunks, image);
    GenuineStream(events, p, image);
    assert AllDelivered(events, p, image) <==> AllCome(events, image, totalChunks) by {
      assert forall i | 0 <= i < totalChunks :: Delivered(events, p, image, i) <==> Comes(events, image, i);
    }
  }

  /** With a buffer of one chunk, the size the server announces, no image of more than one chunk is ever
      put together, whatever comes. */
  lemma OneChunkIsNotEnough(events: seq<Event>, image: seq<byte>, totalChunks: nat)
    requires 2 <= totalChunks <= (|image| + CHUNK_SIZE - 1) / CHUNK_SIZE <= 0x1_0000_0000
    requires AllGenuine(events, image, totalChunks)
    ensures InRange(events, CHUNK_SIZE, totalChunks)
    ensures Reassembled(events, Fresh(CHUNK_SIZE, totalChunks)) == None
  {
    hide Taken, AllGenuine, Read;
    var p := Fresh(CHUNK_SIZE, totalChunks);
    GenuineInRange(events, image, CHUNK_SIZE, totalChunks);
    FreshAgrees(CHUNK_SIZE, totalChunks, image);
    GenuineStream(events, p, image);
    assert !Delivered(events, p, image, 1);
  }
}
