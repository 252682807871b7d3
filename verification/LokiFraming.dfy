/** Framing of the wire between client and server: every frame is its length as four bytes, the most
    significant first, and then its data. Both receivers parse whatever has arrived so far. */
module LokiFraming {
  import opened Bytes

  type Frame = seq<Byte>

  /** The order of the bytes of a length: most significant first, or least significant first. */
  datatype Order = Network | Reversed

  function LengthBytes(n: int, order: Order): seq<Byte>
    requires 0 <= n < TWO_32
  {
    if order == Network then BigEndian32(n) else LittleEndian32(n)
  }

  function ReadLength(s: seq<Byte>, order: Order): (n: int)
    requires |s| == 4
    ensures 0 <= n < TWO_32
  {
    if order == Network then ReadBigEndian32(s) else ReadLittleEndian32(s)
  }

  lemma LengthRoundTrip(n: int, order: Order)
    requires 0 <= n < TWO_32
    ensures |LengthBytes(n, order)| == 4 && ReadLength(LengthBytes(n, order), order) == n
  {
    BigEndianRoundTrip(n);
    LittleEndianRoundTrip(n);
  }

  lemma LengthOfRead(s: seq<Byte>, order: Order)
    requires |s| == 4
    ensures LengthBytes(ReadLength(s, order), order) == s
  {
    BigEndianOfRead(s);
    LittleEndianOfRead(s);
  }

  /** What the sender puts on the wire for one buffer. */
  function Encode(frame: Frame, order: Order): seq<Byte>
    requires |frame| < TWO_32
  {
    LengthBytes(|frame|, order) + frame
  }

  function EncodeAll(frames: seq<Frame>, order: Order): seq<Byte>
    requires forall f :: f in frames ==> |f| < TWO_32
  {
    if frames == [] then [] else Encode(frames[0], order) + EncodeAll(frames[1..], order)
  }

  /** The complete frames at the front of a byte stream. */
  function Parse(bytes: seq<Byte>, order: Order): seq<Frame>
    decreases |bytes|
  {
    if |bytes| < 4 then []
    else
      var length := ReadLength(bytes[..4], order);
      if |bytes| < 4 + length then [] else [bytes[4..4 + length]] + Parse(bytes[4 + length..], order)
  }

  /** The frames that carry data. */
  function NonEmpty(frames: seq<Frame>): seq<Frame> {
    if frames == [] then []
    else NonEmpty(frames[..|frames| - 1]) + if frames[|frames| - 1] == [] then [] else [frames[|frames| - 1]]
  }

  lemma {:induction false} NonEmptyConcat(a: seq<Frame>, b: seq<Frame>)
    ensures NonEmpty(a + b) == NonEmpty(a) + NonEmpty(b)
  {
    if b == [] {
      assert a + b == a;
    } else {
      assert (a + b)[..|a + b| - 1] == a + b[..|b| - 1];
      NonEmptyConcat(a, b[..|b| - 1]);
    }
  }

  lemma NonEmptyOne(f: Frame)
    ensures NonEmpty([f]) == if f == [] then [] else [f]
  {
    assert [f][..0] == [];
  }

  /** One frame at the front of the stream is parsed first. */
  lemma ParseOne(frame: Frame, rest: seq<Byte>, order: Order)
    requires |frame| < TWO_32
    ensures Parse(Encode(frame, order) + rest, order) == [frame] + Parse(rest, order)
  {
    var bytes := Encode(frame, order) + rest;
    LengthRoundTrip(|frame|, order);
    assert bytes[..4] == LengthBytes(|frame|, order);
    assert bytes[4..4 + |frame|] == frame;
    assert bytes[4 + |frame|..] == rest;
  }

  /** Encoding some frames and parsing gives them back, whatever follows them. */
  lemma {:induction false} ParseEncoded(frames: seq<Frame>, rest: seq<Byte>, order: Order)
    requires forall f :: f in frames ==> |f| < TWO_32
    ensures Parse(EncodeAll(frames, order) + rest, order) == frames + Parse(rest, order)
  {
    hide Parse, Encode;
    if frames == [] {
      assert EncodeAll(frames, order) + rest == rest && frames + Parse(rest, order) == Parse(rest, order);
    } else {
      ParseEncoded(frames[1..], rest, order);
      ParseOne(frames[0], EncodeAll(frames[1..], order) + rest, order);
      assert EncodeAll(frames, order) + rest == Encode(frames[0], order) + (EncodeAll(frames[1..], order) + rest);
      assert frames == [frames[0]] + frames[1..];
    }
  }

  lemma {:induction false} EncodeAllSnoc(frames: seq<Frame>, f: Frame, order: Order)
    requires |f| < TWO_32 && forall g :: g in frames ==> |g| < TWO_32
    ensures forall g :: g in frames + [f] ==> |g| < TWO_32
    ensures EncodeAll(frames + [f], order) == EncodeAll(frames, order) + Encode(f, order)
  {
    hide Encode;
    if frames == [] {
      assert frames + [f] == [f] && EncodeAll([f], order) == Encode(f, order) + EncodeAll([f][1..], order);
    } else {
      EncodeAllSnoc(frames[1..], f, order);
      assert (frames + [f])[1..] == frames[1..] + [f];
    }
  }

  /** What is parsed of bytes, by their values: the first four are the length of the first frame, in
      network order the first of them most significant. */
  lemma ParseByBytes(bytes: seq<Byte>, order: Order)
    requires |bytes| >= 4
    ensures var b := if order == Network then bytes[..4] else [bytes[3], bytes[2], bytes[1], bytes[0]];
            var n := ((b[0] as int * 256 + b[1] as int) * 256 + b[2] as int) * 256 + b[3] as int;
            Parse(bytes, order) == if |bytes| - 4 < n then [] else [bytes[4..4 + n]] + Parse(bytes[4 + n..], order)
    ensures Parse(bytes[..3], order) == []
  {
    WordOfBytes(bytes[..4]);
  }

  lemma ParseEmpty(order: Order)
    ensures Parse([], order) == []
  {
  }

  /** `SendData`. */
  method SendData(buffer: Frame) returns (block: seq<Byte>)
    requires |buffer| < TWO_32
    ensures block == Encode(buffer, Network)
    ensures block == [(|buffer| / 16777216) as Byte, (|buffer| / 65536 % 256) as Byte, (|buffer| / 256 % 256) as Byte,
                      (|buffer| % 256) as Byte] + buffer
  {
    BytesOfWord(|buffer|);
    assert |BigEndian32(0)| == 4;
    hide BigEndian32;
    block := BigEndian32(0) + buffer;
    var length := (|block| - 4) % TWO_32;
    assert block[4..] == buffer && length == |buffer|;
    block := BigEndian32(length) + block[4..];
  }

  /** The length read for the frame that is arriving, as it stood on the wire. */
  function Header(blockSize: int, order: Order): seq<Byte>
    requires 0 <= blockSize < TWO_32
  {
    if blockSize == 0 then [] else LengthBytes(blockSize, order)
  }

  /** What both receivers keep between two chunks: everything received is the frames done so far,
      the header of the one arriving, and the bytes not taken from the socket yet. */
  ghost predicate InStep(received: seq<Byte>, done: seq<Frame>, blockSize: int, pending: seq<Byte>,
                         emitted: seq<Frame>, order: Order) {
    && 0 <= blockSize < TWO_32
    && (forall f :: f in done ==> |f| < TWO_32)
    && received == EncodeAll(done, order) + (Header(blockSize, order) + pending)
    && NonEmpty(emitted) == NonEmpty(done)
  }

  /** Nothing more can be parsed. */
  ghost predicate Drained(blockSize: int, pending: seq<Byte>) {
    if blockSize == 0 then |pending| <= 4 else |pending| < blockSize
  }

  /** In a drained state the frames with data that have arrived completely have all been emitted. */
  lemma DrainedIsComplete(received: seq<Byte>, done: seq<Frame>, blockSize: int, pending: seq<Byte>,
                          emitted: seq<Frame>, order: Order)
    requires InStep(received, done, blockSize, pending, emitted, order) && Drained(blockSize, pending)
    ensures NonEmpty(emitted) == NonEmpty(Parse(received, order))
  {
    hide Parse, NonEmpty, EncodeAll, Header, Drained;
    var rest := Header(blockSize, order) + pending;
    ParseEncoded(done, rest, order);
    NonEmptyConcat(done, Parse(rest, order));
    NothingArrived(blockSize, pending, order);
    assert NonEmpty(done) + [] == NonEmpty(done);
  }

  lemma NothingArrived(blockSize: int, pending: seq<Byte>, order: Order)
    requires 0 <= blockSize < TWO_32 && Drained(blockSize, pending)
    ensures NonEmpty(Parse(Header(blockSize, order) + pending, order)) == []
  {
    HeaderBytes(blockSize, order);
    ParseEmpty(order);
    hide Header, LengthBytes, ReadLength;
    if blockSize == 0 {
      assert [] + pending == pending;
      if |pending| == 4 {
        assert pending[..4] == pending && pending[4..] == [];
        assert [[]] + Parse([], order) == [[]];
        NonEmptyOne([]);
      }
    } else {
      LengthRoundTrip(blockSize, order);
      assert (LengthBytes(blockSize, order) + pending)[..4] == LengthBytes(blockSize, order);
    }
  }

  /** Taking the length off the wire. */
  lemma HeaderTaken(received: seq<Byte>, done: seq<Frame>, pending: seq<Byte>, emitted: seq<Frame>, order: Order)
    requires InStep(received, done, 0, pending, emitted, order) && |pending| >= 4
    ensures var n := ReadLength(pending[..4], order);
            && (n > 0 ==> InStep(received, done, n, pending[4..], emitted, order))
            && (n == 0 ==> InStep(received, done + [[]], 0, pending[4..], emitted, order))
  {
    LengthOfRead(pending[..4], order);
    hide *;
    var n := ReadLength(pending[..4], order);
    assert pending == LengthBytes(n, order) + pending[4..];
    if n == 0 {
      EmptyTaken(received, done, pending[4..], emitted, order);
    } else {
      LengthTaken(received, done, n, pending[4..], emitted, order);
    }
  }

  lemma HeaderBytes(n: int, order: Order)
    requires 0 <= n < TWO_32
    ensures Header(0, order) == [] && (n > 0 ==> Header(n, order) == LengthBytes(n, order))
  {
  }

  lemma LengthTaken(received: seq<Byte>, done: seq<Frame>, n: int, rest: seq<Byte>, emitted: seq<Frame>, order: Order)
    requires 0 < n < TWO_32 && InStep(received, done, 0, LengthBytes(n, order) + rest, emitted, order)
    ensures InStep(received, done, n, rest, emitted, order)
  {
    HeaderBytes(n, order);
    hide EncodeAll, NonEmpty, LengthBytes, Header;
    var pending := LengthBytes(n, order) + rest;
    assert [] + pending == pending;
  }

  lemma EmptyTaken(received: seq<Byte>, done: seq<Frame>, rest: seq<Byte>, emitted: seq<Frame>, order: Order)
    requires InStep(received, done, 0, LengthBytes(0, order) + rest, emitted, order)
    ensures InStep(received, done + [[]], 0, rest, emitted, order)
  {
    HeaderBytes(0, order);
    EncodeEmpty(order);
    hide EncodeAll, Encode, NonEmpty, LengthBytes, Header;
    EncodeAllSnoc(done, [], order);
    SpuriousNothing(done);
    Regroup(EncodeAll(done, order), [], LengthBytes(0, order), rest);
    assert [] + LengthBytes(0, order) == LengthBytes(0, order);
  }

  lemma EncodeEmpty(order: Order)
    ensures Encode([], order) == LengthBytes(0, order)
  {
    assert LengthBytes(0, order) + [] == LengthBytes(0, order);
  }

  lemma SpuriousNothing(frames: seq<Frame>)
    ensures NonEmpty(frames + [[]]) == NonEmpty(frames)
  {
    NonEmptyConcat(frames, [[]]);
    NonEmptyOne([]);
    assert NonEmpty(frames) + [] == NonEmpty(frames);
  }

  lemma Regroup(a: seq<Byte>, b: seq<Byte>, c: seq<Byte>, d: seq<Byte>)
    ensures a + (b + (c + d)) == (a + (b + c)) + ([] + d)
  {
  }

  /** Taking the data of a frame off the wire and emitting it. */
  lemma FrameTaken(received: seq<Byte>, done: seq<Frame>, n: int, pending: seq<Byte>, emitted: seq<Frame>, order: Order)
    requires InStep(received, done, n, pending, emitted, order) && 0 < n <= |pending|
    ensures InStep(received, done + [pending[..n]], 0, pending[n..], emitted + [pending[..n]], order)
  {
    var f := pending[..n];
    hide EncodeAll, NonEmpty, LengthBytes, Encode, Header;
    HeaderBytes(n, order);
    EncodeIs(f, order);
    EncodeAllSnoc(done, f, order);
    NonEmptyConcat(done, [f]);
    NonEmptyConcat(emitted, [f]);
    assert pending == f + pending[n..];
    Regroup(EncodeAll(done, order), LengthBytes(n, order), f, pending[n..]);
  }

  lemma EncodeIs(f: Frame, order: Order)
    requires |f| < TWO_32
    ensures Encode(f, order) == LengthBytes(|f|, order) + f
  {
  }

  /** An empty buffer emitted for nothing on the wire. */
  lemma SpuriousEmitted(received: seq<Byte>, done: seq<Frame>, n: int, pending: seq<Byte>, emitted: seq<Frame>,
                        order: Order)
    requires InStep(received, done, n, pending, emitted, order)
    ensures InStep(received, done, n, pending, emitted + [[]], order)
  {
    SpuriousNothing(emitted);
  }

  /** New bytes on the socket. */
  lemma ChunkArrives(received: seq<Byte>, done: seq<Frame>, n: int, pending: seq<Byte>, emitted: seq<Frame>,
                     chunk: seq<Byte>, order: Order)
    requires InStep(received, done, n, pending, emitted, order)
    ensures InStep(received + chunk, done, n, pending + chunk, emitted, order)
  {
    hide EncodeAll, NonEmpty, Header;
    assert EncodeAll(done, order) + (Header(n, order) + pending) + chunk ==
           EncodeAll(done, order) + (Header(n, order) + (pending + chunk));
  }

  /** The client's end. */
  class LokiSocket {
    /** The bytes available on the TCP socket. */
    var socket: seq<Byte>
    var blockSize: int
    /** Every buffer handed to the listeners so far. */
    var emitted: seq<Frame>

    /** Every byte that has ever arrived, and the frames already taken out of them. */
    ghost var received: seq<Byte>
    ghost var done: seq<Frame>

    ghost predicate Valid()
      reads this
    {
      0 <= blockSize < TWO_32 && InStep(received, done, blockSize, socket, emitted, Network)
    }

    constructor ()
      ensures Valid() && received == [] && emitted == []
    {
      socket, blockSize, emitted := [], 0, [];
      received, done := [], [];
    }

    method ParseCommand() returns (more: bool)
      requires Valid()
      modifies `socket, `blockSize, `emitted, `done
      ensures Valid()
      ensures !more ==> Drained(blockSize, socket)
      ensures more ==> |socket| < old(|socket|)
      ensures old(emitted) <= emitted
    {
      hide InStep;
      var available := |socket|;
      if blockSize == 0 && available > 4 {
        HeaderTaken(received, done, socket, emitted, Network);
        blockSize := ReadBigEndian32(socket[..4]);
        socket := socket[4..];
        if blockSize == 0 {
          done := done + [[]];
        }
        available := available - 4;
      }
      if available < blockSize {
        return false;
      }
      var data := socket[..Min(blockSize, |socket|)];
      if blockSize > 0 {
        FrameTaken(received, done, blockSize, socket, emitted, Network);
        done := done + [data];
      } else {
        SpuriousEmitted(received, done, blockSize, socket, emitted, Network);
      }
      socket := socket[|data|..];
      blockSize := 0;
      emitted := emitted + [data];
      more := |socket| > 4 && blockSize == 0;
    }

    /** However the stream is cut into chunks, after each of them the buffers with data that were
        emitted are the frames with data that have arrived completely, in order. */
    method OnDataReadTriggered(chunk: seq<Byte>)
      requires Valid()
      modifies this
      ensures Valid() && received == old(received) + chunk
      ensures NonEmpty(emitted) == NonEmpty(Parse(received, Network))
      ensures old(emitted) <= emitted
    {
      hide InStep;
      ChunkArrives(received, done, blockSize, socket, emitted, chunk, Network);
      socket := socket + chunk;
      received := received + chunk;
      var parse := ParseCommand();
      while parse
        invariant Valid() && received == old(received) + chunk && old(emitted) <= emitted
        invariant !parse ==> Drained(blockSize, socket)
        decreases parse, |socket|
      {
        parse := ParseCommand();
      }
      DrainedIsComplete(received, done, blockSize, socket, emitted, Network);
    }
  }

  /** What has arrived so far decides the frames that are complete; later bytes only add to them. */
  lemma {:induction false} ParseIsMonotone(x: seq<Byte>, y: seq<Byte>, order: Order)
    ensures Parse(x, order) <= Parse(x + y, order)
    decreases |x|
  {
    hide ReadLength;
    if |x| >= 4 {
      var n := ReadLength(x[..4], order);
      assert (x + y)[..4] == x[..4];
      if 4 + n <= |x| {
        ParseIsMonotone(x[4 + n..], y, order);
        assert (x + y)[4..4 + n] == x[4..4 + n] && (x + y)[4 + n..] == x[4 + n..] + y;
      }
    }
  }

  /** Whatever part of the encoded frames has arrived, the complete ones are the first of those sent;
      once all of it has, they are all of them. */
  lemma FramesSentAreFramesParsed(frames: seq<Frame>, arrived: seq<Byte>, order: Order)
    requires (forall f :: f in frames ==> |f| < TWO_32) && arrived <= EncodeAll(frames, order)
    ensures Parse(arrived, order) <= frames
    ensures arrived == EncodeAll(frames, order) ==> Parse(arrived, order) == frames
  {
    var all := EncodeAll(frames, order);
    ParseEncoded(frames, [], order);
    ParseEmpty(order);
    assert all + [] == all && frames + [] == frames;
    ParseIsMonotone(arrived, all[|arrived|..], order);
    assert arrived + all[|arrived|..] == all;
  }

  // ---- The server's end ------------------------------------------------------------------------

  /** The word with its four bytes in reverse order. */
  function Swap(n: int): (r: int)
    requires 0 <= n < TWO_32
    ensures 0 <= r < TWO_32
  {
    ReadLittleEndian32(BigEndian32(n))
  }

  /** `htonl` and `ntohl` on a host of the given byte order. */
  function NetworkOrder(n: int, littleEndianHost: bool): (r: int)
    requires 0 <= n < TWO_32
    ensures 0 <= r < TWO_32
  {
    if littleEndianHost then Swap(n) else n
  }

  lemma LittleEndianOfRead(s: seq<Byte>)
    requires |s| == 4
    ensures LittleEndian32(ReadLittleEndian32(s)) == s
    ensures Swap(ReadLittleEndian32(s)) == ReadBigEndian32(s)
  {
    var r := [s[3], s[2], s[1], s[0]];
    var n := ReadLittleEndian32(s);
    BigEndianOfRead(r);
    assert BigEndian32(n) == r;
    assert LittleEndian32(n) == [r[3], r[2], r[1], r[0]];
  }

  lemma SwapIsInvolution(n: int)
    requires 0 <= n < TWO_32
    ensures LittleEndian32(Swap(n)) == BigEndian32(n)
    ensures Swap(Swap(n)) == n
  {
    LittleEndianOfRead(BigEndian32(n));
    BigEndianRoundTrip(n);
  }

  class LokiReceiveBuffer {
    var queue: seq<Byte>

    constructor ()
      ensures queue == []
    {
      queue := [];
    }

    method InsertData(data: seq<Byte>)
      modifies this
      ensures queue == old(queue) + data
    {
      for i := 0 to |data|
        invariant queue == old(queue) + data[..i]
      {
        assert data[..i + 1] == data[..i] + [data[i]];
        queue := queue + [data[i]];
      }
      assert data[..|data|] == data;
    }

    /** Pushes the four bytes of the converted word from its low end: network order on a
        little-endian host, and on the other kind the reverse. */
    method InsertNetworkUInt32(value: int, littleEndianHost: bool)
      requires -0x8000_0000 <= value < 0x8000_0000
      modifies this
      ensures littleEndianHost ==> queue == old(queue) + BigEndian32(value % TWO_32)
      ensures !littleEndianHost ==> queue == old(queue) + LittleEndian32(value % TWO_32)
    {
      var uvalue := value % TWO_32;
      var networkValue := NetworkOrder(uvalue, littleEndianHost);
      SwapIsInvolution(uvalue);
      var bytes := [Digit(networkValue, 3), Digit(networkValue, 2), Digit(networkValue, 1), Digit(networkValue, 0)];
      ghost var word := LittleEndian32(networkValue);
      hide Digit;
      assert word == [bytes[3], bytes[2], bytes[1], bytes[0]];
      queue := queue + [bytes[3]];
      queue := queue + [bytes[2]];
      queue := queue + [bytes[1]];
      queue := queue + [bytes[0]];
      assert queue == old(queue) + word;
    }

    /** The first four bytes as a word, the least significant one first; 0 when there are fewer. */
    method Get4BytesHead() returns (r: int)
      modifies this
      ensures 0 <= r < TWO_32
      ensures old(|queue|) < 4 ==> r == 0 && queue == old(queue)
      ensures old(|queue|) >= 4 ==> r == ReadLittleEndian32(old(queue)[..4]) && queue == old(queue)[4..]
      ensures old(|queue|) >= 4 ==>
                r == old(queue)[0] as int + old(queue)[1] as int * 256 + old(queue)[2] as int * 65536
                     + old(queue)[3] as int * 16777216
    {
      if |queue| < 4 {
        return 0;
      }
      var lsb := queue[0];
      var nextLsb := queue[1];
      var nextMsb := queue[2];
      var msb := queue[3];
      queue := queue[4..];
      r := msb as int * 0x100_0000 + nextMsb as int * 0x1_0000 + nextLsb as int * 0x100 + lsb as int;
    }

    method GetBuffer(size: int) returns (buffer: seq<Byte>)
      modifies this
      ensures size > old(|queue|) ==> buffer == [] && queue == old(queue)
      ensures size <= old(|queue|) ==> buffer == old(queue)[..Max(0, size)] && queue == old(queue)[Max(0, size)..]
    {
      buffer := [];
      if |queue| >= size {
        for i := 0 to Max(0, size)
          invariant buffer == old(queue)[..i] && queue == old(queue)[i..]
        {
          assert queue[0] == old(queue)[i] && queue[1..] == old(queue)[i + 1..];
          buffer := buffer + [queue[0]];
          queue := queue[1..];
        }
      }
    }
  }

  /** A frame built for the client is laid out as the client's parser expects on a little-endian
      host; on the other kind exactly when its length reads the same from both ends. */
  method BuildFrame(data: Frame, littleEndianHost: bool) returns (b: LokiReceiveBuffer)
    requires |data| < 0x8000_0000
    ensures fresh(b)
    ensures b.queue == Encode(data, Network) <==> littleEndianHost || Swap(|data|) == |data|
  {
    hide Digit, ReadBigEndian32, ReadLittleEndian32, LittleEndian32, BigEndian32, Swap;
    LayoutsAgree(|data|);
    b := new LokiReceiveBuffer();
    b.InsertNetworkUInt32(|data|, littleEndianHost);
    ghost var head := b.queue;
    b.InsertData(data);
    assert b.queue[..4] == head && Encode(data, Network)[..4] == BigEndian32(|data|);
  }

  /** Both layouts of a word agree exactly when the word reads the same from both ends. */
  lemma LayoutsAgree(n: int)
    requires 0 <= n < TWO_32
    ensures |LittleEndian32(n)| == |BigEndian32(n)| == 4
    ensures LittleEndian32(n) == BigEndian32(n) <==> Swap(n) == n
  {
    SwapIsInvolution(n);
    LittleEndianRoundTrip(n);
  }

  /** The order in which a host of the given kind takes the bytes of a length: `Get4BytesHead` and then
      `ntohl`. */
  function HostOrder(littleEndianHost: bool): Order {
    if littleEndianHost then Network else Reversed
  }

  /** The server's connection. */
  class User {
    const littleEndianHost: bool
    var received: LokiReceiveBuffer
    var blockSize: int
    /** Every buffer handed to the command parser so far. */
    var emitted: seq<Frame>

    ghost var stream: seq<Byte>
    ghost var done: seq<Frame>

    ghost predicate Valid()
      reads this, received
    {
      0 <= blockSize < TWO_32 && InStep(stream, done, blockSize, received.queue, emitted, HostOrder(littleEndianHost))
    }

    constructor (littleEndianHost: bool)
      ensures Valid() && stream == [] && emitted == [] && fresh(received)
      ensures this.littleEndianHost == littleEndianHost
    {
      this.littleEndianHost := littleEndianHost;
      received := new LokiReceiveBuffer();
      blockSize, emitted := 0, [];
      stream, done := [], [];
    }

    method ParseCommand() returns (more: bool)
      requires Valid()
      modifies this, received
      ensures Valid() && stream == old(stream) && received == old(received) && old(emitted) <= emitted
      ensures !more ==> Drained(blockSize, received.queue)
      ensures more ==> |received.queue| < old(|received.queue|)
    {
      hide InStep;
      ghost var order := HostOrder(littleEndianHost);
      if blockSize == 0 {
        if |received.queue| >= 4 {
          TakeHead();
        }
      }
      if |received.queue| >= blockSize {
        if blockSize > 0 {
          FrameTaken(stream, done, blockSize, received.queue, emitted, order);
          done := done + [received.queue[..blockSize]];
        } else {
          SpuriousEmitted(stream, done, blockSize, received.queue, emitted, order);
        }
        ghost var before := received.queue;
        var buffer := received.GetBuffer(blockSize);
        assert blockSize == 0 ==> buffer == [] && received.queue == before;
        blockSize := 0;
        emitted := emitted + [buffer];
      }
      more := |received.queue| > 4 && blockSize == 0;
    }

    /** The length of the next frame, in the order of the host. */
    method TakeHead()
      requires Valid() && blockSize == 0 && |received.queue| >= 4
      modifies this`blockSize, this`done, received
      ensures Valid() && received.queue == old(received.queue)[4..]
    {
      ghost var order := HostOrder(littleEndianHost);
      HeaderTaken(stream, done, received.queue, emitted, order);
      LittleEndianOfRead(received.queue[..4]);
      hide InStep, Swap, ReadLittleEndian32, ReadBigEndian32;
      var nethead := received.Get4BytesHead();
      blockSize := NetworkOrder(nethead, littleEndianHost);
      if blockSize == 0 {
        done := done + [[]];
      }
    }

    /** However the stream is cut, the server hands out the frames in it as its kind of host reads
        their lengths: on a little-endian host the same frames as the client. */
    method OnData(chunk: seq<Byte>)
      requires Valid()
      modifies this, received
      ensures Valid() && stream == old(stream) + chunk && old(emitted) <= emitted
      ensures NonEmpty(emitted) == NonEmpty(Parse(stream, HostOrder(littleEndianHost)))
    {
      hide InStep;
      ghost var order := HostOrder(littleEndianHost);
      ChunkArrives(stream, done, blockSize, received.queue, emitted, chunk, order);
      received.InsertData(chunk);
      stream := stream + chunk;
      var parse := ParseCommand();
      while parse
        invariant Valid() && stream == old(stream) + chunk && old(emitted) <= emitted && received == old(received)
        invariant !parse ==> Drained(blockSize, received.queue)
        decreases parse, |received.queue|
      {
        parse := ParseCommand();
      }
      DrainedIsComplete(stream, done, blockSize, received.queue, emitted, order);
    }
  }

  /** On a host of the other kind the frames a client sends arrive as they were sent if and only if
      each of their lengths reads the same from both ends. */
  lemma {:induction false} OtherHostReads(frames: seq<Frame>)
    requires forall f :: f in frames ==> |f| < TWO_32
    ensures Parse(EncodeAll(frames, Network), Reversed) == frames <==> forall f :: f in frames ==> Swap(|f|) == |f|
  {
    hide Parse, Swap, Encode;
    if frames == [] {
      ParseEmpty(Reversed);
    } else {
      var f, others := frames[0], frames[1..];
      assert frames == [f] + others;
      OtherHostReads(others);
      var rest := EncodeAll(others, Network);
      if Swap(|f|) == |f| {
        SameEncoding(f);
        ParseOne(f, rest, Reversed);
        assert Parse(EncodeAll(frames, Network), Reversed) == [f] + Parse(rest, Reversed);
        SameHead(f, Parse(rest, Reversed), others);
      } else {
        OtherLength(f, rest);
        assert f in frames;
      }
    }
  }

  lemma SameHead(f: Frame, a: seq<Frame>, b: seq<Frame>)
    ensures [f] + a == [f] + b <==> a == b
  {
    assert ([f] + a)[1..] == a && ([f] + b)[1..] == b;
  }

  lemma SameEncoding(f: Frame)
    requires |f| < TWO_32 && Swap(|f|) == |f|
    ensures Encode(f, Network) == Encode(f, Reversed)
  {
    LayoutsAgree(|f|);
  }

  /** A length read in the other order gives another first frame, or none. */
  lemma OtherLength(f: Frame, rest: seq<Byte>)
    requires |f| < TWO_32 && Swap(|f|) != |f|
    ensures var parsed := Parse(Encode(f, Network) + rest, Reversed); parsed == [] || parsed[0] != f
  {
    var bytes := Encode(f, Network) + rest;
    assert bytes[..4] == BigEndian32(|f|);
    assert ReadLength(bytes[..4], Reversed) == Swap(|f|);
  }
}
