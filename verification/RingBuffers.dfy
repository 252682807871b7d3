/** The block-list buffer between a socket and its reader: a list of byte arrays with a cursor
    into the first and the last of them that is to behave as one plain byte sequence. */
module RingBuffers {
  import opened Bytes

  /** The cursors stay inside their blocks. */
  ghost predicate Shaped(blocks: seq<seq<Byte>>, head: int, tail: int) {
    && blocks != []
    && 0 <= tail <= |blocks[|blocks| - 1]|
    && 0 <= head <= if |blocks| == 1 then tail else |blocks[0]|
  }

  /** The bytes held: the first block from `head`, every middle block, the last block up to `tail`. */
  ghost function Content(blocks: seq<seq<Byte>>, head: int, tail: int): seq<Byte>
    requires Shaped(blocks, head, tail)
  {
    if |blocks| == 1 then blocks[0][head..tail] else blocks[0][head..] + Content(blocks[1..], 0, tail)
  }

  /** The same bytes without the first block, or without some bytes of it. */
  lemma ContentFront(blocks: seq<seq<Byte>>, head: int, tail: int, k: nat)
    requires Shaped(blocks, head, tail)
    ensures |blocks| == 1 ==> Content(blocks, head, tail) == blocks[0][head..tail]
    ensures |blocks| > 1 ==>
              && Shaped(blocks[1..], 0, tail)
              && Content(blocks, head, tail) == blocks[0][head..] + Content(blocks[1..], 0, tail)
    ensures Shaped(blocks, head + k, tail) ==>
              && k <= |Content(blocks, head, tail)|
              && Content(blocks, head + k, tail) == Content(blocks, head, tail)[k..]
              && Content(blocks, head, tail)[..k] == blocks[0][head..head + k]
  {
    ContentUnfold(blocks, head, tail);
    if Shaped(blocks, head + k, tail) {
      ContentUnfold(blocks, head + k, tail);
      hide Content;
      if |blocks| == 1 {
        DropPart(blocks[0], head, k, tail, []);
      } else {
        DropPart(blocks[0], head, k, |blocks[0]|, Content(blocks[1..], 0, tail));
      }
    }
  }

  lemma ContentUnfold(blocks: seq<seq<Byte>>, head: int, tail: int)
    requires Shaped(blocks, head, tail)
    ensures |blocks| == 1 ==> Content(blocks, head, tail) == blocks[0][head..tail]
    ensures |blocks| > 1 ==>
              && Shaped(blocks[1..], 0, tail)
              && Content(blocks, head, tail) == blocks[0][head..] + Content(blocks[1..], 0, tail)
  {
  }

  lemma DropPart(block: seq<Byte>, head: int, k: nat, end: int, rest: seq<Byte>)
    requires 0 <= head && head + k <= end <= |block|
    ensures block[head..end][k..] == block[head + k..end] && block[head..end][..k] == block[head..head + k]
    ensures end == |block| ==>
              && (block[head..] + rest)[k..] == block[head + k..] + rest
              && (block[head..] + rest)[..k] == block[head..head + k]
  {
  }

  /** The same bytes taken apart at the back. */
  lemma {:induction false} ContentBack(blocks: seq<seq<Byte>>, head: int, tail: int)
    requires Shaped(blocks, head, tail) && |blocks| > 1
    ensures var n := |blocks| - 1;
            && Shaped(blocks[..n], head, |blocks[n - 1]|)
            && Content(blocks, head, tail) == Content(blocks[..n], head, |blocks[n - 1]|) + blocks[n][..tail]
  {
    hide Content;
    var n := |blocks| - 1;
    var front := blocks[..n];
    ContentFront(blocks, head, tail, 0);
    ContentFront(front, head, |blocks[n - 1]|, 0);
    if n == 1 {
      ContentFront(blocks[1..], 0, tail, 0);
      assert blocks[0][head..|blocks[0]|] == blocks[0][head..];
    } else {
      ContentBack(blocks[1..], 0, tail);
      assert blocks[1..][..n - 1] == front[1..];
    }
  }

  lemma PartsOf(s: seq<Byte>, a: nat, b: nat, c: nat)
    requires a <= b <= c <= |s|
    ensures s[a..c] == s[a..b] + s[b..c]
  {
  }

  /** Moving `tail` inside its block only adds or drops bytes at the end. */
  lemma ContentTail(blocks: seq<seq<Byte>>, head: int, tail: int, more: int)
    requires Shaped(blocks, head, tail) && tail <= more <= |blocks[|blocks| - 1]|
    ensures Shaped(blocks, head, more)
    ensures Content(blocks, head, more) == Content(blocks, head, tail) + blocks[|blocks| - 1][tail..more]
  {
    hide Content;
    var last := blocks[|blocks| - 1];
    if |blocks| > 1 {
      ContentBack(blocks, head, tail);
      ContentBack(blocks, head, more);
      PartsOf(last, 0, tail, more);
      assert last[0..more] == last[..more] && last[0..tail] == last[..tail];
    } else {
      ContentFront(blocks, head, tail, 0);
      ContentFront(blocks, head, more, 0);
      PartsOf(last, head, tail, more);
    }
  }

  /** Only the part of the last block before `tail` matters. */
  lemma ContentResize(blocks: seq<seq<Byte>>, head: int, tail: int, block: seq<Byte>)
    requires Shaped(blocks, head, tail) && tail <= |block|
    requires block[..tail] == blocks[|blocks| - 1][..tail]
    ensures Shaped(blocks[|blocks| - 1 := block], head, tail)
    ensures Content(blocks[|blocks| - 1 := block], head, tail) == Content(blocks, head, tail)
  {
    var n := |blocks| - 1;
    var changed := blocks[n := block];
    if n > 0 {
      ContentBack(blocks, head, tail);
      ContentBack(changed, head, tail);
      assert changed[..n] == blocks[..n];
    } else {
      assert block[head..tail] == block[..tail][head..];
      assert blocks[0][head..tail] == blocks[0][..tail][head..];
    }
  }

  /** How many bytes are held depends only on the sizes of the blocks. */
  lemma ContentSize(blocks: seq<seq<Byte>>, head: int, tail: int, block: seq<Byte>)
    requires blocks != [] && |block| == |blocks[|blocks| - 1]|
    ensures var changed := blocks[|blocks| - 1 := block];
            && (Shaped(changed, head, tail) <==> Shaped(blocks, head, tail))
            && (Shaped(blocks, head, tail) ==> |Content(changed, head, tail)| == |Content(blocks, head, tail)|)
  {
    var n := |blocks| - 1;
    var changed := blocks[n := block];
    if n > 0 && Shaped(blocks, head, tail) {
      ContentBack(blocks, head, tail);
      ContentBack(changed, head, tail);
      assert changed[..n] == blocks[..n];
    }
  }

  /** A block put behind a last block that is full. */
  lemma ContentPush(blocks: seq<seq<Byte>>, head: int, tail: int, block: seq<Byte>, end: int)
    requires Shaped(blocks, head, tail) && tail == |blocks[|blocks| - 1]|
    requires 0 <= end <= |block|
    ensures Shaped(blocks + [block], head, end)
    ensures Content(blocks + [block], head, end) == Content(blocks, head, tail) + block[..end]
  {
    ContentBack(blocks + [block], head, end);
    assert (blocks + [block])[..|blocks|] == blocks;
  }

  /** One round of `chop`: how dropping `k` bytes at the back moves `tail`. */
  lemma ContentChop(blocks: seq<seq<Byte>>, head: int, tail: int, k: nat)
    requires Shaped(blocks, head, tail)
    ensures var c := Content(blocks, head, tail);
            var n := |blocks| - 1;
            && (n == 0 ==> |c| == tail - head)
            && (n > 0 && head < |blocks[0]| ==> c != [])
            && ((if n == 0 then k <= tail - head else k <= tail) ==>
                  Shaped(blocks, head, tail - k) && k <= |c| && Content(blocks, head, tail - k) == c[..|c| - k]
                  && (n > 0 && head < |blocks[0]| ==> k < |c|))
            && (n > 0 ==>
                  Shaped(blocks[..n], head, |blocks[n - 1]|) && tail <= |c|
                  && Content(blocks[..n], head, |blocks[n - 1]|) == c[..|c| - tail])
  {
    var n := |blocks| - 1;
    if n > 0 {
      ContentBack(blocks, head, tail);
    }
    if if n == 0 then k <= tail - head else k <= tail {
      ContentTail(blocks, head, tail - k, tail);
    }
  }

  /** With nothing held in several blocks, a new first block and a new tail make room for exactly
      `bytes` bytes only when the cursor stands at the new block's end and the last block is
      large enough. */
  lemma ReserveInDrainedBlocks(blocks: seq<seq<Byte>>, head: int, tail: int, block: seq<Byte>, bytes: nat)
    requires Shaped(blocks, head, tail) && |blocks| > 1 && Content(blocks, head, tail) == []
    ensures var changed := blocks[0 := block];
            (Shaped(changed, head, bytes) && |Content(changed, head, bytes)| == bytes) <==>
            (head == |block| && bytes <= |blocks[|blocks| - 1]|)
  {
    ContentBack(blocks, head, tail);
    assert tail == 0;
    if bytes <= |blocks[|blocks| - 1]| {
      ContentTail(blocks[1..], 0, 0, bytes);
    }
    assert blocks[0 := block][1..] == blocks[1..];
  }

  lemma SliceOfFirst(x: seq<Byte>, y: seq<Byte>, from: nat, len: nat)
    requires from + len <= |x|
    ensures (x + y)[from..][..len] == x[from..from + len]
  {
  }

  lemma SliceTail(s: seq<Byte>, from: nat, x: seq<Byte>, y: seq<Byte>)
    requires from <= |s| && s[from..] == x + y
    ensures from + |x| <= |s| && y == s[from + |x|..]
  {
    assert y == s[from..][|x|..];
  }

  lemma SliceOfSlice(s: seq<Byte>, from: nat, to: nat, a: nat, b: nat)
    requires from <= to <= |s| && a <= b <= to - from
    ensures s[from..to][a..b] == s[from + a..from + b]
  {
    var x, y := s[from..to][a..b], s[from + a..from + b];
    forall k | 0 <= k < b - a ensures x[k] == y[k] {
      assert s[from..to][a + k] == s[from + a + k];
    }
  }

  lemma PeekStep(read: seq<Byte>, x: seq<Byte>, y: seq<Byte>, k: nat)
    ensures read + Take(x + y, k) == (read + Take(x, k)) + Take(y, Max(0, k - |x|))
    ensures x == [] ==> x + y == y && Take(x, k) == []
    ensures k == 0 || y == [] ==> read + Take(y, k) == read
  {
    assert Take(x + y, k) == Take(x, k) + Take(y, Max(0, k - |x|));
    assert k == 0 || y == [] ==> Take(y, k) == [];
  }

  lemma TakeOfBlock(block: seq<Byte>, start: nat, end: nat, len: nat)
    requires start <= end <= |block|
    ensures Take(block[start..end], len) == block[start..start + Min(len, end - start)]
  {
  }

  /** Where `c` first occurs in `s`, or -1. */
  function Find(s: seq<Byte>, c: Byte): (r: int)
    ensures if c in s then 0 <= r < |s| && s[r] == c && c !in s[..r] else r == -1
  {
    if s == [] then -1
    else if s[0] == c then 0
    else var r := Find(s[1..], c);
         assert r >= 0 ==> s[..r + 1] == [s[0]] + s[1..][..r];
         if r == -1 then -1 else r + 1
  }

  lemma FindUnfold(s: seq<Byte>, c: Byte)
    ensures s[0..] == s
    ensures Find(s, c) == if s == [] then -1 else if s[0] == c then 0 else
                            var r := Find(s[1..], c); if r == -1 then -1 else r + 1
  {
  }

  /** A search that found nothing in `x` goes on in `y`, `|x|` places further on. */
  lemma FindInConcat(x: seq<Byte>, y: seq<Byte>, c: Byte)
    ensures Find(x + y, c) ==
            if Find(x, c) != -1 then Find(x, c) else if Find(y, c) == -1 then -1 else |x| + Find(y, c)
  {
    var r, whole := Find(x + y, c), x + y;
    if c in x {
      assert whole[Find(x, c)] == c;
      assert whole[..Find(x, c)] == x[..Find(x, c)];
    } else if c in y {
      assert whole[|x| + Find(y, c)] == c;
      assert whole[..|x| + Find(y, c)] == x + y[..Find(y, c)];
    }
  }

  /** A search of the first `remain` bytes of a block and what follows it, in two steps. */
  lemma FindWithinStep(block: seq<Byte>, start: nat, end: nat, rest: seq<Byte>, remain: int, c: Byte)
    requires start <= end <= |block|
    ensures var cut := if remain < end - start then start + remain else end;
            var here := Find(block[start..Max(start, cut)], c);
            var later := Find(Take(rest, Max(0, remain - (end - start))), c);
            Find(Take(block[start..end] + rest, Max(0, remain)), c) ==
            if here != -1 then here else if later == -1 then -1 else end - start + later
  {
    hide Find;
    var cut := if remain < end - start then start + remain else end;
    var later := Take(rest, Max(0, remain - (end - start)));
    assert Take(block[start..end] + rest, Max(0, remain)) == block[start..Max(start, cut)] + later;
    FindInConcat(block[start..Max(start, cut)], later, c);
  }

  /** Only the bytes that are there are searched, and none for a limit that is not positive. */
  lemma NothingToFind(s: seq<Byte>, limit: int, c: Byte)
    ensures Take(s, Max(0, limit)) == Take(s, Max(0, Min(|s|, limit)))
    ensures limit <= 0 || s == [] ==> Find(Take(s, Max(0, limit)), c) == -1
  {
    assert limit <= 0 || s == [] ==> Take(s, Max(0, limit)) == [];
  }

  /** The scan of one block: where `c` first occurs in `block[start..end]`, from `start`. */
  method ScanBlock(block: seq<Byte>, start: nat, end: int, c: Byte) returns (k: int)
    requires start <= |block| && end <= |block|
    ensures k == Find(block[start..Max(start, end)], c)
  {
    hide Find;
    ghost var part := block[start..Max(start, end)];
    FindUnfold(part, c);
    for j := start to Max(start, end)
      invariant Find(part, c) == if Find(part[j - start..], c) == -1 then -1 else j - start + Find(part[j - start..], c)
    {
      FindUnfold(part[j - start..], c);
      assert part[j - start..][1..] == part[j + 1 - start..];
      if block[j] == c {
        return j - start;
      }
    }
    FindUnfold(part[|part|..], c);
    k := -1;
  }

  lemma DropFromConcat(x: seq<Byte>, y: seq<Byte>, k: nat)
    ensures Drop(x, k) == if k <= |x| then x[k..] else []
    ensures |x| <= k ==> Drop(x + y, k) == Drop(y, k - |x|)
  {
  }

  /** All bytes of the first block dropped. */
  lemma DropFirstBlock(blocks: seq<seq<Byte>>, head: int, tail: int, k: nat)
    requires Shaped(blocks, head, tail) && |blocks| > 1 && |blocks[0]| - head <= k
    ensures Shaped(blocks[1..], 0, tail)
    ensures Drop(Content(blocks, head, tail), k) == Drop(Content(blocks[1..], 0, tail), k - (|blocks[0]| - head))
  {
    hide Content, Drop;
    ContentFront(blocks, head, tail, 0);
    DropFromConcat(blocks[0][head..], Content(blocks[1..], 0, tail), k);
  }

  lemma DropMore(s: seq<Byte>, n: nat, more: nat)
    requires n + more <= |s|
    ensures Drop(s[n..], more) == s[n + more..]
  {
  }

  /** `target` with its first `n` bytes replaced by those of `source`. */
  function Overlay(target: seq<Byte>, source: seq<Byte>, n: int): seq<Byte>
    requires 0 <= n <= |source| && n <= |target|
  {
    source[..n] + target[n..]
  }

  /** Byte by byte. */
  lemma OverlayAt(target: seq<Byte>, source: seq<Byte>, n: int, k: nat)
    requires 0 <= n <= |source| && n <= |target| && k < |target|
    ensures |Overlay(target, source, n)| == |target|
    ensures Overlay(target, source, n)[k] == if k < n then source[k] else target[k]
  {
  }

  /** One `memcpy` further. */
  lemma OverlayNext(target: seq<Byte>, source: seq<Byte>, n: nat, more: nat)
    requires n + more <= |source| && n + more <= |target|
    ensures Overlay(target, source, 0) == target
    ensures var now := Overlay(target, source, n);
            && |now| == |target|
            && now[..n] + source[n..][..more] + now[n + more..] == Overlay(target, source, n + more)
  {
    var now := Overlay(target, source, n);
    assert source[..0] + target[0..] == target;
    assert now[..n] == source[..n] && now[n + more..] == target[n + more..];
    assert source[..n] + source[n..][..more] == source[..n + more];
  }

  /** `QByteArray::resize`: keeps what fits, and leaves any new byte unspecified. */
  method Resize(s: seq<Byte>, n: nat) returns (r: seq<Byte>)
    ensures |r| == n && Take(s, n) <= r
  {
    if n <= |s| {
      r := s[..n];
    } else {
      r := s + seq(n - |s|, _ => 0);
    }
  }

  class QRingBuffer {
    var buffers: seq<seq<Byte>>
    var head: int
    var tail: int
    var tailBuffer: int
    var bufferSize: int
    const basicBlockSize: int

    /** What every operation keeps: the cursors are in range, `tailBuffer` is the last index,
        `bufferSize` is the number of bytes held, and a drained single block is rewound. */
    ghost predicate Valid()
      reads this
    {
      && 0 <= basicBlockSize
      && Shaped(buffers, head, tail)
      && tailBuffer == |buffers| - 1
      && bufferSize == |Contents()|
      && (tailBuffer == 0 && head == tail ==> head == 0)
    }

    ghost function Contents(): seq<Byte>
      requires Shaped(buffers, head, tail)
      reads this
    {
      Content(buffers, head, tail)
    }

    /** Either something is held, or everything has been squeezed into one block. */
    ghost predicate Ready()
      reads this
    {
      bufferSize == 0 ==> tailBuffer == 0
    }

    /** When `reserve` hands out memory that belongs to the buffer's end. */
    ghost predicate ReserveSafe(bytes: int)
      reads this
    {
      || Ready()
      || (head == Max(basicBlockSize, bytes) && tailBuffer == |buffers| - 1 && tailBuffer >= 0
          && bytes <= |buffers[tailBuffer]|)
    }

    constructor (growth: nat := 4096)
      ensures Valid() && Ready() && Contents() == [] && basicBlockSize == growth && head == 0
    {
      basicBlockSize := growth;
      buffers := [[]];
      head, tail, tailBuffer, bufferSize := 0, 0, 0, 0;
    }

    function NextDataBlockSize(): (n: int)
      requires Shaped(buffers, head, tail) && tailBuffer == |buffers| - 1
      reads this
      ensures 0 <= n <= |Contents()| && head + n <= |buffers[0]|
      ensures |buffers| == 1 ==> n == |Contents()|
    {
      (if tailBuffer == 0 then tail else |buffers[0]|) - head
    }

    /** The part of the first block that is held is what comes first. */
    lemma FirstBytes(n: nat)
      requires Valid() && n <= NextDataBlockSize()
      ensures buffers[0][head..head + n] == Contents()[..n]
    {
    }

    predicate IsEmpty()
      reads this
    {
      tailBuffer == 0 && tail == 0
    }

    /** `isEmpty` sees an empty buffer only when it is also ready. */
    lemma EmptyMeansReady()
      requires Valid()
      ensures IsEmpty() <==> Contents() == [] && Ready()
    {
    }

    method Clear()
      requires buffers != [] && 0 <= basicBlockSize
      modifies this
      ensures Valid() && Ready() && Contents() == []
      ensures |buffers| == 1
    {
      buffers := [[]];
      head, tail, tailBuffer, bufferSize := 0, 0, 0, 0;
    }

    /** Drops bytes at the front; always leaves the buffer ready. */
    method Free(bytes: nat)
      requires Valid()
      modifies this
      ensures Valid() && Ready()
      ensures Contents() == Drop(old(Contents()), bytes)
      ensures |buffers| <= old(|buffers|)
      ensures old(|buffers| > 1 && NextDataBlockSize() <= bytes) ==> |buffers| < old(|buffers|)
    {
      hide Content, Drop;
      ghost var kept := Drop(Contents(), bytes);
      DropFromConcat(Contents(), [], bytes);
      bufferSize := Max(0, bufferSize - bytes);
      var left := bytes;
      while |buffers| > 1 && NextDataBlockSize() <= left
        invariant 0 <= left
        invariant Shaped(buffers, head, tail) && tailBuffer == |buffers| - 1
        invariant tailBuffer == 0 && head == tail ==> head == 0
        invariant Drop(Content(buffers, head, tail), left) == kept
        invariant bufferSize == |kept|
        invariant || |buffers| < old(|buffers|)
                  || (left == bytes && buffers == old(buffers) && head == old(head) && tail == old(tail))
        decreases |buffers|
      {
        DropFirstBlock(buffers, head, tail, left);
        left := left - NextDataBlockSize();
        buffers := buffers[1..];
        tailBuffer := tailBuffer - 1;
        head := 0;
      }
      DropFromConcat(Contents(), [], left);
      if left < NextDataBlockSize() {
        ContentFront(buffers, head, tail, left);
        head := head + left; // still short of `tail` when both are in this block
      } else {
        ContentFront(buffers, head, tail, 0);
        if |buffers[0]| != basicBlockSize {
          var block := Resize(buffers[0], basicBlockSize);
          buffers := buffers[0 := block];
        }
        head, tail := 0, 0;
        tailBuffer := 0;
        ContentFront(buffers, 0, 0, 0);
      }
      if IsEmpty() {
        ContentFront(buffers, head, tail, 0);
        Clear();
      }
    }

    /** Makes room for `bytes` bytes at the end and returns where in the last block they start.
        With nothing held but several blocks left, the new room is not the end of the buffer. */
    method Reserve(bytes: nat) returns (at: int)
      requires Valid()
      modifies this
      ensures Valid() <==> old(ReserveSafe(bytes))
      ensures Valid() ==>
                && |Contents()| == old(|Contents()|) + bytes
                && old(Contents()) <= Contents()
                && at + bytes == tail
      ensures Valid() && bytes > 0 ==> Ready()
      ensures 0 <= at && buffers != [] && tailBuffer == |buffers| - 1
    {
      if bufferSize == 0 {
        at := ReserveFresh(bytes);
      } else {
        at := ReserveMore(bytes);
      }
    }

    /** The branch for a buffer that holds nothing. */
    method ReserveFresh(bytes: nat) returns (at: int)
      requires Valid() && bufferSize == 0
      modifies this
      ensures Valid() <==> old(ReserveSafe(bytes))
      ensures Valid() ==> |Contents()| == bytes && at + bytes == tail
      ensures 0 <= at && buffers != [] && tailBuffer == |buffers| - 1
    {
      hide Content;
      ContentFront(buffers, head, tail, 0);
      var block := Resize(buffers[0], Max(basicBlockSize, bytes));
      if |buffers| > 1 {
        ReserveInDrainedBlocks(buffers, head, tail, block, bytes);
      }
      buffers := buffers[0 := block];
      bufferSize := bufferSize + bytes;
      tail := bytes;
      at := 0;
      if |buffers| == 1 {
        ContentFront(buffers, head, tail, 0);
      }
    }

    /** The branches for a buffer that holds something. */
    method ReserveMore(bytes: nat) returns (at: int)
      requires Valid() && bufferSize > 0
      modifies this
      ensures Valid() && |Contents()| == old(|Contents()|) + bytes
      ensures old(Contents()) <= Contents() && at + bytes == tail && 0 <= at
    {
      hide Content;
      bufferSize := bufferSize + bytes;
      if tail + bytes <= |buffers[tailBuffer]| {
        ContentTail(buffers, head, tail, tail + bytes);
        at := tail;
        tail := tail + bytes;
      } else if tail < |buffers[tailBuffer]| / 2 {
        var block := Resize(buffers[tailBuffer], tail + bytes);
        ContentResize(buffers, head, tail, block);
        buffers := buffers[tailBuffer := block];
        ContentTail(buffers, head, tail, tail + bytes);
        at := tail;
        tail := tail + bytes;
      } else {
        var shrunk := Resize(buffers[tailBuffer], tail);
        ContentResize(buffers, head, tail, shrunk);
        buffers := buffers[tailBuffer := shrunk];
        var room := Resize([], Max(basicBlockSize, bytes));
        ContentPush(buffers, head, tail, room, bytes);
        buffers := buffers + [room];
        tailBuffer := tailBuffer + 1;
        tail := bytes;
        at := 0;
      }
    }

    /** Appends a byte, exactly when the reservation is safe. A byte written to an empty block lands on
        the terminator behind it. */
    method PutChar(c: Byte)
      requires Valid()
      modifies this
      ensures Valid() <==> old(ReserveSafe(1))
      ensures Valid() ==> Ready() && Contents() == old(Contents()) + [c]
    {
      hide Content;
      var at := Reserve(1);
      ghost var before := buffers;
      if at < |buffers[tailBuffer]| {
        var block := buffers[tailBuffer][at := c];
        buffers := buffers[tailBuffer := block];
        ContentSize(before, head, tail, block);
      }
      if old(ReserveSafe(1)) {
        ContentTail(before, head, at, tail);
        ContentResize(before, head, at, buffers[tailBuffer]);
        ContentTail(buffers, head, at, tail);
        assert buffers == before[tailBuffer := buffers[tailBuffer]];
        assert Content(before, head, at) == old(Contents());
      }
    }

    /** Drops bytes at the back. All of them dropped with an exhausted first block in front
        of the others is the one case that leaves the buffer unready. */
    method Chop(bytes: nat)
      requires Valid()
      modifies this
      ensures Valid()
      ensures Contents() == Take(old(Contents()), Max(0, old(|Contents()|) - bytes))
      ensures Ready() <==> !old(tailBuffer > 0 && bytes == bufferSize && head == |buffers[0]|)
    {
      hide Content;
      ghost var whole := Content(buffers, head, tail);
      bufferSize := Max(0, bufferSize - bytes);
      var left := bytes;
      while tailBuffer != 0 && tail < left
        invariant 0 < left || left == bytes
        invariant left <= bytes <= left + |whole|
        invariant Shaped(buffers, head, tail) && tailBuffer == |buffers| - 1
        invariant head == old(head) && buffers[0] == old(buffers[0])
        invariant bufferSize == Max(0, |whole| - bytes)
        invariant Content(buffers, head, tail) == whole[..|whole| - (bytes - left)]
        invariant || tailBuffer == old(tailBuffer)
                  || (tailBuffer < old(tailBuffer) && 0 < left && tail == |buffers[tailBuffer]|)
        invariant tailBuffer == old(tailBuffer) ==> left == bytes && tail == old(tail)
        decreases |buffers|
      {
        ContentChop(buffers, head, tail, 0);
        left := left - tail;
        buffers := buffers[..tailBuffer];
        tailBuffer := tailBuffer - 1;
        tail := |buffers[tailBuffer]|;
      }
      ContentChop(buffers, head, tail, left);
      tail := tail - left;
      if tailBuffer == 0 && tail <= head {
        tail, head := 0, 0;
        ContentFront(buffers, 0, 0, 0);
      }
    }

    method Truncate(pos: int)
      requires Valid()
      modifies this
      ensures Valid()
      ensures Contents() == Take(old(Contents()), Max(0, pos))
    {
      if pos < bufferSize {
        Chop(bufferSize - pos);
      }
    }

    /** Takes one byte off the front. The byte is the right one exactly when the first block
        still has one; otherwise the terminator behind the exhausted block is returned. */
    method GetChar() returns (r: int)
      requires Valid()
      modifies this
      ensures Valid() && Ready()
      ensures old(IsEmpty()) ==> r == -1 && Contents() == []
      ensures !old(IsEmpty()) ==> 0 <= r && Contents() == Drop(old(Contents()), 1)
      ensures r == (if old(Contents()) == [] then -1 else old(Contents()[0] as int)) <==>
              old(IsEmpty() || NextDataBlockSize() > 0 || (Contents() != [] && Contents()[0] == 0))
    {
      if IsEmpty() {
        return -1;
      }
      var c: Byte := if head < |buffers[0]| then buffers[0][head] else 0;
      if NextDataBlockSize() > 0 {
        FirstBytes(1);
        assert c == buffers[0][head..head + 1][0] == Contents()[0];
      }
      Free(1);
      r := c as int;
    }

    /** Puts a byte in front, exactly when there is room or a new block can have any. Otherwise the
        source writes in front of an empty block, and `head` stays behind there. */
    method UngetChar(c: Byte)
      requires Valid()
      modifies this
      ensures Valid() <==> old(head > 0 || basicBlockSize > 0)
      ensures Valid() ==> Ready() && Contents() == [c] + old(Contents())
    {
      head := head - 1;
      if head < 0 {
        var block := Resize([], basicBlockSize);
        buffers := [block] + buffers;
        head := basicBlockSize - 1;
        tailBuffer := tailBuffer + 1;
      }
      ghost var before := buffers;
      if head >= 0 {
        buffers := buffers[0 := buffers[0][head := c]];
        assert buffers[1..] == before[1..];
        assert buffers[0][head + 1..] == before[0][head + 1..];
      }
      bufferSize := bufferSize + 1;
    }

    // ---- Walking the blocks -----------------------------------------------------------------

    function BlockStart(i: nat): int
      reads this
    {
      if i == 0 then head else 0
    }

    function BlockEnd(i: nat): int
      requires i < |buffers|
      reads this
    {
      if i == tailBuffer then tail else |buffers[i]|
    }

    /** The bytes from block `i` on. */
    ghost function Rest(i: nat): seq<Byte>
      requires Valid() && i <= |buffers|
      reads this
    {
      if i == |buffers| then [] else Content(buffers[i..], BlockStart(i), tail)
    }

    lemma WholeRest()
      requires Valid()
      ensures Rest(0) == Contents() && Rest(|buffers|) == [] && |Contents()| == bufferSize
    {
      assert buffers[0..] == buffers;
    }

    lemma RestStep(i: nat)
      requires Valid() && i < |buffers|
      ensures 0 <= BlockStart(i) <= BlockEnd(i) <= |buffers[i]|
      ensures Rest(i) == buffers[i][BlockStart(i)..BlockEnd(i)] + Rest(i + 1)
    {
      hide Content;
      ContentFront(buffers[i..], BlockStart(i), tail, 0);
      if i < tailBuffer {
        assert buffers[i..][1..] == buffers[i + 1..];
      }
    }

    method IndexOf(c: Byte) returns (r: int)
      requires Valid()
      ensures r == Find(Contents(), c)
    {
      hide Content, Rest, Find;
      WholeRest();
      var index := 0;
      for i := 0 to |buffers|
        invariant Find(Contents(), c) == if Find(Rest(i), c) == -1 then -1 else index + Find(Rest(i), c)
      {
        RestStep(i);
        var start, end := BlockStart(i), BlockEnd(i);
        FindInConcat(buffers[i][start..end], Rest(i + 1), c);
        var k := ScanBlock(buffers[i], start, end, c);
        if k != -1 {
          return index + k;
        }
        index := index + (end - start);
      }
      return -1;
    }

    /** The same within the first `maxLength` bytes. */
    method IndexOfWithin(c: Byte, maxLength: int) returns (r: int)
      requires Valid()
      ensures r == Find(Take(Contents(), Max(0, maxLength)), c)
    {
      hide Content, Rest, Find, Take;
      WholeRest();
      var index := 0;
      var remain := Min(bufferSize, maxLength);
      NothingToFind(Contents(), maxLength, c);
      var i := 0;
      while remain != 0 && i < |buffers|
        invariant 0 <= i <= |buffers| && remain <= |Rest(i)|
        invariant var here := Find(Take(Rest(i), Max(0, remain)), c);
                  Find(Take(Contents(), Max(0, maxLength)), c) == if here == -1 then -1 else index + here
      {
        RestStep(i);
        var start, end := BlockStart(i), BlockEnd(i);
        FindWithinStep(buffers[i], start, end, Rest(i + 1), remain, c);
        NothingToFind(Rest(i + 1), remain - (end - start), c);
        if remain < end - start {
          end := start + remain;
          remain := 0;
        } else {
          remain := remain - (end - start);
        }
        var k := ScanBlock(buffers[i], start, end, c);
        if k != -1 {
          return index + k;
        }
        index := index + Max(0, end - start);
        i := i + 1;
      }
      NothingToFind(Rest(i), remain, c);
      return -1;
    }

    method Peek(maxLength: int) returns (r: seq<Byte>)
      requires Valid()
      ensures r == Take(Contents(), Max(0, maxLength))
    {
      hide Content, Rest, Take;
      WholeRest();
      var bytesToRead := Min(bufferSize, maxLength);
      NothingToFind(Contents(), maxLength, 0);
      if maxLength <= 0 {
        PeekStep([], [], Contents(), 0);
        return [];
      }
      r := [];
      var i := 0;
      PeekStep([], [], Contents(), bytesToRead);
      while |r| < bytesToRead && i < |buffers|
        invariant 0 <= i <= |buffers| && |r| <= bytesToRead
        invariant Take(Contents(), bytesToRead) == r + Take(Rest(i), bytesToRead - |r|)
      {
        RestStep(i);
        var start, end := BlockStart(i), BlockEnd(i);
        var len := Min(bytesToRead - |r|, end - start);
        PeekStep(r, buffers[i][start..end], Rest(i + 1), bytesToRead - |r|);
        TakeOfBlock(buffers[i], start, end, bytesToRead - |r|);
        r := r + buffers[i][start..start + len];
        i := i + 1;
      }
      PeekStep(r, [], Rest(i), bytesToRead - |r|);
    }

    /** The address of byte `pos`, and how many bytes its block holds from there on. */
    ghost predicate IsReadPointer(pos: int, block: int, offset: int, length: int)
      requires Shaped(buffers, head, tail)
      reads this
    {
      && 0 <= block < |buffers| && 0 <= offset && 0 < length
      && offset + length == BlockEnd(block) <= |buffers[block]|
      && 0 <= pos && pos + length <= |Contents()|
      && buffers[block][offset..offset + length] == Contents()[pos..pos + length]
    }

    /** Right for every position but those up to `head` bytes behind the first block's end. */
    method ReadPointerAtPosition(position: nat) returns (block: int, offset: int, length: int)
      requires Valid()
      ensures position >= |Contents()| ==> block == -1 && length == 0
      ensures position < |Contents()| ==>
                (IsReadPointer(position, block, offset, length) <==>
                 !(NextDataBlockSize() <= position < NextDataBlockSize() + head))
    {
      hide Content, Rest;
      WholeRest();
      ContentFront(buffers, head, tail, 0);
      if position >= bufferSize {
        return -1, 0, 0;
      }
      var next := NextDataBlockSize();
      if position - head < next {
        length := next - position;
        if position < next {
          PointerInBlock(0, 0, position, position, length);
        }
        return 0, head + position, length;
      }
      if |buffers| == 1 {
        return -1, 0, 0;
      }
      block, offset, length := PointerBehindFirstBlock(position, position - next);
    }

    /** The walk over the blocks behind the first. */
    method PointerBehindFirstBlock(position: nat, skipped: nat) returns (block: int, offset: int, length: int)
      requires Valid() && |buffers| > 1 && position < bufferSize && skipped == position - NextDataBlockSize()
      ensures IsReadPointer(position, block, offset, length)
    {
      hide Content, Rest, IsReadPointer;
      WholeRest();
      var pos := skipped;
      RestStep(0);
      SliceTail(Contents(), 0, buffers[0][head..], Rest(1));
      var i := 1;
      while i < tailBuffer && |buffers[i]| <= pos
        invariant 1 <= i <= tailBuffer
        invariant 0 <= pos < |Rest(i)| && pos <= position <= |Contents()|
        invariant Rest(i) == Contents()[position - pos..]
      {
        RestStep(i);
        SliceTail(Contents(), position - pos, buffers[i], Rest(i + 1));
        pos := pos - |buffers[i]|;
        i := i + 1;
      }
      RestStep(i);
      length := BlockEnd(i) - pos;
      PointerInBlock(i, position - pos, position, pos, length);
      return i, pos, length;
    }

    /** A stretch of block `i` is the stretch of the contents that starts `at` the block's offset. */
    lemma PointerInBlock(i: nat, at: nat, position: nat, pos: nat, length: int)
      requires Valid() && i < |buffers| && at <= |Contents()| && Rest(i) == Contents()[at..]
      requires position == at + pos && 0 < length && BlockStart(i) + pos + length == BlockEnd(i)
      ensures IsReadPointer(position, i, BlockStart(i) + pos, length)
    {
      hide Content, Rest;
      RestStep(i);
      var block := buffers[i][BlockStart(i)..BlockEnd(i)];
      SliceOfFirst(block, Rest(i + 1), pos, length);
      SliceOfSlice(buffers[i], BlockStart(i), BlockEnd(i), pos, pos + length);
      assert Contents()[at..][pos..][..length] == Contents()[position..position + length];
    }

    // ---- Reading ------------------------------------------------------------------------------

    /** `read(char*, int)`: moves the first bytes into the caller's memory, when there is any. */
    method ReadInto(data: array?<Byte>, maxLength: int) returns (n: int)
      requires Valid()
      requires data != null ==> Min(bufferSize, maxLength) <= data.Length
      modifies this, if data == null then {} else {data}
      ensures Valid()
      ensures n == Max(0, Min(old(|Contents()|), maxLength))
      ensures Contents() == old(Contents())[n..]
      ensures n > 0 || old(Ready()) ==> Ready()
      ensures data != null ==> data[..] == Overlay(old(data[..]), old(Contents()), n)
    {
      hide Content, Drop, Overlay;
      var bytesToRead := Min(bufferSize, maxLength);
      n := 0;
      if data != null {
        OverlayNext(data[..], Contents(), 0, 0);
      }
      while n < bytesToRead
        invariant Valid()
        invariant 0 <= n && (n <= bytesToRead || n == 0)
        invariant n > 0 || old(Ready()) ==> Ready()
        invariant n <= old(|Contents()|) && Contents() == old(Contents())[n..]
        invariant data != null ==> n <= data.Length && data[..] == Overlay(old(data[..]), old(Contents()), n)
        decreases bytesToRead - n, |buffers|
      {
        var here := Min(bytesToRead - n, NextDataBlockSize());
        if data != null {
          OverlayNext(old(data[..]), old(Contents()), n, here);
          CopyInto(data, n, here);
        }
        DropMore(old(Contents()), n, here);
        n := n + here;
        Free(here);
      }
    }

    /** `memcpy` of the first bytes of the first block. */
    method CopyInto(data: array<Byte>, at: nat, count: nat)
      requires Valid() && count <= NextDataBlockSize() && at + count <= data.Length
      modifies data
      ensures data[..] == old(data[..])[..at] + Contents()[..count] + old(data[..])[at + count..]
    {
      hide Content;
      FirstBytes(count);
      forall k | 0 <= k < count {
        data[at + k] := buffers[0][head + k];
      }
    }

    /** `read(int)`; a negative length reads nothing. */
    method ReadBytes(maxLength: int) returns (r: seq<Byte>)
      requires Valid()
      modifies this
      ensures Valid()
      ensures r == Take(old(Contents()), Max(0, maxLength)) && Contents() == Drop(old(Contents()), Max(0, maxLength))
      ensures r + Contents() == old(Contents())
      ensures |r| == if maxLength <= 0 then 0
                     else if maxLength <= |old(Contents())| then maxLength else |old(Contents())|
      ensures r != [] || old(Ready()) ==> Ready()
    {
      var tmp := new Byte[Max(0, Min(maxLength, bufferSize))];
      var n := ReadInto(tmp, tmp.Length);
      r := tmp[..];
    }

    method ReadAll() returns (r: seq<Byte>)
      requires Valid()
      modifies this
      ensures Valid() && r == old(Contents()) && Contents() == []
    {
      r := ReadBytes(bufferSize);
    }

    method Skip(length: int) returns (n: int)
      requires Valid()
      modifies this
      ensures Valid() && n == Max(0, Min(old(|Contents()|), length)) && Contents() == old(Contents())[n..]
      ensures n > 0 || old(Ready()) ==> Ready()
    {
      n := ReadInto(null, length);
    }

    /** `read()`: hands out the first block. What it returns and what stays are the old content;
        it leaves the buffer unready exactly when it drains all but two or more blocks. */
    method ReadBlock() returns (r: seq<Byte>)
      requires Valid()
      modifies this
      ensures Valid()
      ensures r + Contents() == old(Contents())
      ensures old(bufferSize) > 0 ==> |r| == old(NextDataBlockSize())
      ensures old(bufferSize) > 0 ==> (Ready() <==> !old(tailBuffer > 1 && bufferSize == NextDataBlockSize()))
      ensures old(bufferSize) > 0 && old(tailBuffer) > 0 ==> |buffers| == old(|buffers|) - 1
    {
      if bufferSize == 0 {
        return [];
      }
      if head == 0 && tailBuffer != 0 {
        r := buffers[0];
        buffers := buffers[1..];
        tailBuffer := tailBuffer - 1;
        bufferSize := bufferSize - |r|;
        return;
      }
      if head == 0 && tailBuffer == 0 {
        r := Resize(buffers[0], tail);
        buffers := [[]];
        bufferSize := 0;
        tail := 0;
        return;
      }
      r := buffers[0][head..head + NextDataBlockSize()];
      buffers := buffers[1..];
      head := 0;
      if tailBuffer == 0 {
        buffers := buffers + [[]];
        tail := 0;
      } else {
        tailBuffer := tailBuffer - 1;
      }
      bufferSize := bufferSize - |r|;
    }

    method Append(qba: seq<Byte>)
      requires Valid()
      modifies this
      ensures Valid() && Contents() == old(Contents()) + qba && head == old(head)
      ensures Ready() <==> old(Contents()) + qba != []
    {
      var block := Resize(buffers[tailBuffer], tail);
      ContentResize(buffers, head, tail, block);
      buffers := buffers[tailBuffer := block];
      ContentPush(buffers, head, tail, qba, |qba|);
      buffers := buffers + [qba];
      tailBuffer := tailBuffer + 1;
      tail := |qba|;
      bufferSize := bufferSize + |qba|;
    }

    /** Reads up to and with the first newline, leaving one byte of the caller's memory for the
        terminator; without a newline, as much as `read` would. */
    method ReadLine(data: array<Byte>, maxLength: int) returns (n: int)
      requires Valid()
      requires maxLength <= data.Length
      modifies this, data
      ensures Valid()
      ensures Find(old(Contents()), 10) == -1 ==>
                && n == Max(0, Min(old(|Contents()|), maxLength))
                && Contents() == old(Contents())[n..]
                && data[..] == Overlay(old(data[..]), old(Contents()), n)
      ensures Find(old(Contents()), 10) != -1 && maxLength <= 0 ==>
                n == -1 && Contents() == old(Contents()) && data[..] == old(data[..])
      ensures Find(old(Contents()), 10) != -1 && maxLength > 0 ==>
                && n == Min(Find(old(Contents()), 10) + 1, maxLength - 1)
                && Contents() == old(Contents())[n..]
                && data[..] == Overlay(old(data[..]), old(Contents()), n)[n := 0]
    {
      hide Content, Drop, Find, Overlay, Valid, NextDataBlockSize;
      var index := IndexOf(10);
      if index == -1 {
        n := ReadInto(data, maxLength);
      } else if maxLength <= 0 {
        n := -1;
      } else {
        n := ReadToNewline(data, maxLength, index);
        ghost var now := data[..];
        data[n] := 0;
        assert data[..] == now[n := 0];
      }
    }

    /** The loop of `readLine`, for a newline at `index`. */
    method ReadToNewline(data: array<Byte>, maxLength: int, index: nat) returns (n: int)
      requires Valid() && index < |Contents()| && 0 < maxLength <= data.Length
      modifies this, data
      ensures Valid() && n == Min(index + 1, maxLength - 1)
      ensures Contents() == old(Contents())[n..]
      ensures data[..] == Overlay(old(data[..]), old(Contents()), n)
    {
      hide Content, Drop, Overlay;
      OverlayNext(data[..], Contents(), 0, 0);
      n := 0;
      while n < index + 1 && n < maxLength - 1
        invariant Valid()
        invariant 0 <= n <= index + 1 && n <= maxLength - 1
        invariant Contents() == old(Contents())[n..]
        invariant data[..] == Overlay(old(data[..]), old(Contents()), n)
        decreases Min(index + 1, maxLength - 1) - n, |buffers|
      {
        var here := Min(index + 1 - n, NextDataBlockSize());
        here := Min(here, maxLength - 1 - n);
        OverlayNext(old(data[..]), old(Contents()), n, here);
        CopyInto(data, n, here);
        DropMore(old(Contents()), n, here);
        n := n + here;
        Free(here);
      }
    }

    method CanReadLine() returns (r: bool)
      requires Valid()
      ensures r <==> 10 in Contents()
    {
      var index := IndexOf(10);
      r := index != -1;
    }
  }

  /** A run that never leaves the public interface and ends in an unsafe `reserve`: an empty
      array appended to a fresh buffer leaves two blocks and no bytes, and the next reservation
      then lands outside the last block. */
  method AppendEmptyBreaksReserve(growth: nat) returns (b: QRingBuffer)
    ensures fresh(b) && b.Valid() && b.Contents() == [] && !b.ReserveSafe(1)
  {
    b := new QRingBuffer(growth);
    b.Append([]);
  }
}
