// The memory file itself: blocks of bounded size on a linked queue, a write cursor
// on the last block, a read cursor anywhere, and the two flags is_full and is_empty.

module Mfile {
  import opened Bytes
  import opened Output
  import opened MfileState

  // struct data_block. `data` is the written part of the buffer, so its length is
  // current_write_count.
  class Block {
    var data: seq<byte>
    var readCount: nat
    var next: Block?
    ghost var index: nat  // its place in the queue

    constructor ()
      ensures data == [] && readCount == 0 && next == null
    {
      data, readCount, next := [], 0, null;
    }
  }

  const DEFAULT_DATA_BLOCK_SIZE := 8888

  // struct mfile
  class MFile {
    const bs: nat
    var totalSize: nat
    var newHeaderSize: nat
    var blockNum: nat
    var first: Block?
    var last: Block?        // the queue's tail pointer
    var writeP: Block?
    var readP: Block?
    var isFull: bool
    var isEmpty: bool
    var ccache: byte

    ghost var blocks: seq<Block>
    ghost var parts: seq<seq<byte>>
    ghost var heads: nat

    // The queue: each block points to the next.
    ghost predicate Linked()
      reads `blocks, `first, `last, blocks`index, blocks`next
    {
      && (forall k {:trigger blocks[k].index} :: 0 <= k < |blocks| ==> blocks[k].index == k)
      && (forall k {:trigger blocks[k].next} :: 0 <= k < |blocks| ==>
            blocks[k].next == if k + 1 < |blocks| then blocks[k + 1] else null)
      && first == (if blocks == [] then null else blocks[0])
      && last == (if blocks == [] then null else blocks[|blocks| - 1])
    }

    // What the blocks hold.
    ghost predicate Filled()
      reads `blocks, `parts, `heads, `blockNum, `isFull, `writeP, `last, blocks`data
    {
      && 0 < bs && heads <= |blocks| == |parts| == blockNum
      && (forall k {:trigger blocks[k].data} :: 0 <= k < |blocks| ==> blocks[k].data == parts[k])
      && (forall k {:trigger parts[k]} :: 0 <= k < |parts| ==> 1 <= |parts[k]| <= bs)
      && (forall k {:trigger parts[k]} :: heads <= k < |parts| - 1 ==> |parts[k]| == bs)
      && isFull == (heads == |blocks| || |parts[|blocks| - 1]| == bs)
      && (!isFull ==> writeP == last)
    }

    // Where the reader is.
    ghost predicate Placed()
      reads `blocks, `readP, `isEmpty, blocks`index, blocks`readCount, blocks`data
    {
      if readP == null then
        !isEmpty && forall k {:trigger blocks[k].readCount} :: 0 <= k < |blocks| ==> blocks[k].readCount == 0
      else
        && readP in blocks
        && readP.readCount <= |readP.data|
        && forall k {:trigger blocks[k].readCount} :: readP.index < k < |blocks| ==> blocks[k].readCount == 0
    }

    ghost predicate Shape()
      reads `blocks, `parts, `heads, `blockNum, `isFull, `writeP, `first, `last, `readP, `isEmpty,
            blocks`index, blocks`next, blocks`data, blocks`readCount
    {
      Linked() && Filled() && Placed()
    }

    ghost predicate Valid()
      reads `totalSize, `blocks, `parts, `heads, `blockNum, `isFull, `writeP, `first, `last, `readP, `isEmpty,
            blocks`index, blocks`next, blocks`data, blocks`readCount
    {
      Shape() && totalSize == |Flatten(parts)|
    }

    ghost function Where(): Reader
      requires readP != null ==> readP in blocks
      reads `readP, `isEmpty, `blocks, blocks`index, blocks`readCount
    {
      if readP == null then Nowhere else OnBlock(readP.index, readP.readCount, isEmpty)
    }

    ghost function Abs(): State
      requires Shape()
      reads `blocks, `parts, `heads, `blockNum, `isFull, `writeP, `first, `last, `readP, `isEmpty,
            blocks`index, blocks`next, blocks`data, blocks`readCount
    {
      Place(bs, heads, parts, Where())
    }

    lemma AbsValid()
      requires Shape()
      ensures Abs().Valid() && Abs().Content() == Flatten(parts)
      ensures Abs().parts == parts && Abs().bs == bs && Abs().heads == heads
    {
      if readP != null {
        var at := readP.index;
        BlockSlice(parts, at);
        assert 0 < at + 1 <= |parts|;
      }
    }

    // What the queue says about block `k`, and about its ends.
    lemma BlockAt(k: nat)
      requires Linked() && Filled() && k < |blocks|
      ensures |parts| == |blocks| && 1 <= |parts[k]| <= bs && blocks[k].data == parts[k]
      ensures blocks[k].index == k && blocks[k].next == if k + 1 < |blocks| then blocks[k + 1] else null
      ensures forall j {:trigger blocks[j]} :: 0 <= j < |blocks| && j != k ==> blocks[j] != blocks[k]
    {
    }

    lemma Reader()
      requires Linked() && readP != null && readP in blocks
      ensures readP.index < |blocks| && blocks[readP.index] == readP
    {
    }

    lemma ReaderSound()
      requires Shape()
      ensures readP != null ==> readP in blocks
      ensures Sound(parts, Where())
    {
    }

    lemma Ends()
      requires Linked() && Filled()
      ensures first == (if blocks == [] then null else blocks[0])
      ensures |parts| == |blocks| && parts[..0] == [] && parts[..|parts|] == parts
    {
    }

    // mopen
    constructor (dataBlockSize: nat)
      ensures Valid() && blocks == []
      ensures Abs() == Opened(if dataBlockSize == 0 then DEFAULT_DATA_BLOCK_SIZE else dataBlockSize)
      ensures bs == (if dataBlockSize == 0 then 8888 else dataBlockSize) && ccache == 10
    {
      bs := if dataBlockSize == 0 then DEFAULT_DATA_BLOCK_SIZE else dataBlockSize;
      totalSize, newHeaderSize, blockNum := 0, 0, 0;
      first, last, writeP, readP := null, null, null, null;
      isFull, isEmpty, ccache := true, false, 10;
      blocks, parts, heads := [], [], 0;
    }

    // mseek
    method Rewind()
      requires Valid()
      modifies this`isEmpty, this`readP, blocks`readCount
      ensures Valid() && Abs() == Seek(old(Abs())) && readP == null
    {
      hide Linked, Filled;
      Ends();
      isEmpty := false;
      readP := null;
      var n := first;
      ghost var k := 0;
      while n != null
        invariant k <= |blocks| && n == if k < |blocks| then blocks[k] else null
        invariant Linked() && Filled() && readP == null && !isEmpty
        invariant forall i {:trigger blocks[i].readCount} :: 0 <= i < k ==> blocks[i].readCount == 0
        decreases |blocks| - k
      {
        BlockAt(k);
        n.readCount := 0;
        n, k := n.next, k + 1;
      }
    }

    // The search of mseek_pos: the first block that reaches `p0`, and how far into it.
    method Locate(p0: nat) returns (n: Block?, p: nat)
      requires Linked() && Filled()
      ensures if n == null then parts != [] ==> p0 > |Flatten(parts)|
              else
                && n in blocks && n.index < |parts| && p <= |parts[n.index]|
                && |Flatten(parts[..n.index])| + p == p0 && (n.index > 0 ==> p > 0)
    {
      hide Linked, Filled;
      Ends();
      p := p0;
      n := first;
      ghost var k := 0;
      while n != null
        invariant k <= |blocks| && n == if k < |blocks| then blocks[k] else null
        invariant p + |Flatten(parts[..k])| == p0 && (k > 0 ==> p > 0)
        decreases |blocks| - k
      {
        BlockAt(k);
        if p <= |n.data| {
          return;
        }
        BlockSlice(parts, k);
        p := p - |n.data|;
        n, k := n.next, k + 1;
      }
    }

    // mseek_pos
    method RewindTo(pos: int)
      requires Valid()
      modifies `isEmpty, `readP, blocks`readCount
      ensures Valid() && Abs() == SeekPos(old(Abs()), pos)
    {
      hide Linked, Filled, Placed, MfileState.SeekPos, Place;
      AbsValid();
      ghost var s := Abs();
      Rewind();
      var n, p := Locate(if pos < 0 then 0 else pos);
      if n == null {
        SeekMisses(s, pos);
      } else {
        ReaderOf(n);
        SeekLands(s, pos, n.index, p);
        PlaceAt(n, p);
      }
    }

    // The end of the search: the reader stands in block `n`.
    method PlaceAt(n: Block, p: nat)
      requires Shape() && readP == null && n in blocks && n.index < |parts| && p <= |parts[n.index]|
      modifies `readP, n`readCount
      ensures Shape() && Abs() == Place(bs, heads, parts, OnBlock(n.index, p, false))
    {
      hide Linked, Filled, Place;
      ReaderOf(n);
      BlockAt(n.index);
      n.readCount := p;
      readP := n;
    }

    lemma ReaderOf(b: Block)
      requires Linked() && b in blocks
      ensures b.index < |blocks| && blocks[b.index] == b
    {
    }

    // The read cursor is on a byte, whatever is_empty says.
    ghost predicate OnByte()
      reads `blocks, `readP, blocks`index, blocks`readCount, blocks`data
    {
      && readP != null && readP in blocks
      && readP.readCount < |readP.data|
      && forall k {:trigger blocks[k].readCount} :: readP.index < k < |blocks| ==> blocks[k].readCount == 0
    }

    ghost function BytePos(): nat
      requires Linked() && Filled() && OnByte()
      reads `blocks, `parts, `heads, `blockNum, `isFull, `writeP, `first, `last, `readP, `isEmpty,
            blocks`index, blocks`next, blocks`data, blocks`readCount
    {
      Reader();
      |Flatten(parts[..readP.index])| + readP.readCount
    }

    // The head of the loop of mread: move on if the current block was used up.
    method NextByte() returns (more: bool)
      requires Shape() && readP != null
      modifies `readP
      ensures var s := old(Abs());
              if s.mode == Parked || s.pos == |Flatten(parts)| then !more && Shape() && readP != null && Abs() == s
              else more && OnByte() && BytePos() == s.pos && s.mode == Reading
    {
      hide Linked, Filled;
      Reader();
      ghost var at := readP.index;
      BlockAt(at);
      BlockSlice(parts, at);
      if isEmpty {
        var b := readP.next;
        if b == null {
          Ends();
          return false;
        }
        readP := b;
        BlockAt(at + 1);
        BlockSlice(parts, at + 1);
      }
      more := readP.readCount < |readP.data|;
    }

    // The rest of the loop of mread: take what this block can give.
    method TakePiece(want: nat) returns (piece: seq<byte>)
      requires Linked() && Filled() && OnByte() && want > 0
      modifies `isEmpty, blocks`readCount
      ensures Shape() && readP != null && 1 <= |piece| <= want
      ensures var p := old(BytePos());
              && p + |piece| <= |Flatten(parts)| && piece == Flatten(parts)[p..p + |piece|]
              && Abs() == State(bs, heads, parts, p + |piece|, Reading)
    {
      hide Linked, Filled;
      var cur := readP;
      Reader();
      BlockAt(cur.index);
      var could := |cur.data| - cur.readCount;
      var n := if want <= could then want else could;
      BlockPiece(parts, cur.index, cur.readCount, n);
      piece := cur.data[cur.readCount..cur.readCount + n];
      cur.readCount := cur.readCount + n;
      isEmpty := if want <= could then cur.readCount == |cur.data| else true;
    }

    // The head of mread and of mgetc: place the cursor if it is not placed.
    method PlaceCursor() returns (any: bool)
      requires Shape()
      modifies `readP
      ensures Shape() && any == (parts != [])
      ensures any ==> readP != null
                      && Abs() == old(Abs()).(mode := if old(Abs()).mode == Fresh then Reading else old(Abs()).mode)
      ensures !any ==> Abs() == old(Abs())
    {
      hide Linked, Filled;
      Ends();
      if readP == null {
        readP := first;
        if readP == null {
          return false;
        }
        BlockAt(0);
      }
      any := true;
      Reader();
      BlockAt(readP.index);
    }

    // One round of the loop of mread; no bytes when the reader is at the end or parked.
    method ReadRound(want: nat) returns (piece: seq<byte>)
      requires Shape() && readP != null && want > 0
      modifies `isEmpty, `readP, blocks`readCount
      ensures Shape() && readP != null && |piece| <= want
      ensures var s, c := old(Abs()), Flatten(parts);
              && s.pos + |piece| <= |c| && piece == c[s.pos..s.pos + |piece|]
              && (piece == [] <==> s.mode == Parked || s.pos == |c|)
              && Abs() == s.(pos := s.pos + |piece|)
    {
      hide Linked, Filled;
      AbsValid();
      var more := NextByte();
      if !more {
        return [];
      }
      piece := TakePiece(want);
    }

    // A round of which `r` bytes came before.
    method DrainRound(cur: Cursor, r: nat, ghost s: State) returns (n: nat)
      requires Shape() && readP != null && cur.Valid() && r == |cur.done| < cur.limit
      requires Abs() == s.(pos := s.pos + r)
      requires s.pos + r <= |Flatten(parts)| && cur.done == Flatten(parts)[s.pos..s.pos + r]
      modifies `isEmpty, `readP, blocks`readCount, cur, cur.buf
      ensures Shape() && readP != null && cur.Valid() && r + n == |cur.done| <= cur.limit
      ensures var c := Flatten(parts);
              && s.pos + (r + n) <= |c| && cur.done == c[s.pos..s.pos + (r + n)]
              && Abs() == s.(pos := s.pos + (r + n))
              && (n == 0 <==> s.mode == Parked || s.pos + r == |c|)
    {
      hide Linked, Filled, Placed, Abs;
      var piece := ReadRound(cur.limit - r);
      n := |piece|;
      if n > 0 {
        cur.PutAll(piece);
        Slices(Flatten(parts), s.pos, s.pos + r, s.pos + (r + n));
      }
    }

    // The loop of mread, into the room of `cur`.
    method Drain(cur: Cursor) returns (r: nat)
      requires Shape() && readP != null && cur.Valid() && cur.done == []
      modifies `isEmpty, `readP, blocks`readCount, cur, cur.buf
      ensures Shape() && cur.Valid() && r == |cur.done|
      ensures var s, c := old(Abs()), Flatten(parts);
              && s.pos <= |c|
              && r == (if s.mode == Parked then 0 else Min(cur.limit, |c| - s.pos))
              && cur.done == c[s.pos..s.pos + r]
              && Abs() == s.(pos := s.pos + r)
    {
      hide Linked, Filled, Placed, Abs, Flatten;
      AbsValid();
      ghost var s := Abs();
      r := 0;
      while r < cur.limit
        invariant Shape() && readP != null && cur.Valid() && r == |cur.done| <= cur.limit
        invariant s.pos + r <= |Flatten(parts)| && cur.done == Flatten(parts)[s.pos..s.pos + r]
        invariant Abs() == s.(pos := s.pos + r) && (s.mode == Parked ==> r == 0)
        decreases cur.limit - r
      {
        var n := DrainRound(cur, r, s);
        if n == 0 { break; }
        r := r + n;
      }
    }

    // mread
    method Mread(out: array<byte>, len: nat) returns (r: int)
      requires Valid() && len <= out.Length
      modifies `isEmpty, `readP, blocks`readCount, out
      ensures Valid()
      ensures var (t, k, d) := Read(old(Abs()), len);
              && Abs() == t && r == k && |d| <= len
              && out[..|d|] == d && out[len..] == old(out[len..])
    {
      hide Linked, Filled, Placed, Abs;
      AbsValid();
      var any := PlaceCursor();
      if !any {
        return -1;
      }
      var cur := new Cursor(out, len);
      r := Drain(cur);
    }

    // The middle of mgetc: on to the next block if this one was used up.
    method MoveOn() returns (ok: bool)
      requires Shape() && readP != null && Abs().mode != Parked
      modifies `readP
      ensures var s := old(Abs());
              if s.pos == |Flatten(parts)| then !ok && Shape() && readP != null && Abs() == s
              else ok && OnByte() && BytePos() == s.pos && s.mode == Reading
    {
      hide Linked, Filled;
      Reader();
      ghost var at := readP.index;
      BlockAt(at);
      BlockSlice(parts, at);
      if isEmpty {
        var b := readP.next;
        if b == null {
          Ends();
          return false;
        }
        readP := b;
        BlockAt(at + 1);
        BlockSlice(parts, at + 1);
      }
      ok := true;
    }

    // The rest of mgetc, which does not ask whether the block has a byte left.
    method TakeByte() returns (b: byte)
      requires Linked() && Filled() && OnByte()
      modifies `isEmpty, blocks`readCount
      ensures Shape() && readP != null
      ensures var p := old(BytePos());
              p < |Flatten(parts)| && b == Flatten(parts)[p] && Abs() == State(bs, heads, parts, p + 1, Reading)
    {
      hide Linked, Filled;
      var cur := readP;
      Reader();
      BlockAt(cur.index);
      BlockPiece(parts, cur.index, cur.readCount, 1);
      b := cur.data[cur.readCount];
      assert cur.data[cur.readCount..cur.readCount + 1][0] == b;
      assert Flatten(parts)[BytePos()..BytePos() + 1][0] == b;
      cur.readCount := cur.readCount + 1;
      isEmpty := cur.readCount == |cur.data|;
    }

    // mgetc. A parked reader would read past the data of its block.
    method Mgetc() returns (b: byte)
      requires Valid() && Abs().mode != Parked
      modifies `isEmpty, `readP, blocks`readCount
      ensures Valid() && Abs() == GetChar(old(Abs())).0 && b == GetChar(old(Abs())).1
    {
      hide Linked, Filled, Placed, Place;
      AbsValid();
      var any := PlaceCursor();
      if !any {
        return 0;
      }
      var ok := MoveOn();
      if !ok {
        return 0;
      }
      b := TakeByte();
    }

    // The last block is about to take data: it holds the last part, or is brand new.
    ghost predicate Pouring(isNew: bool)
      reads `blocks, `parts, `heads, `blockNum, `writeP, `last, blocks`data
    {
      && 0 < bs && heads <= |parts| && blocks != [] && |blocks| == blockNum
      && |parts| == |blocks| - (if isNew then 1 else 0)
      && writeP == last
      && (forall k {:trigger blocks[k].data} :: 0 <= k < |parts| ==> blocks[k].data == parts[k])
      && (isNew ==> blocks[|blocks| - 1].data == [])
      && (forall k {:trigger parts[k]} :: 0 <= k < |parts| ==> 1 <= |parts[k]| <= bs)
      && (forall k {:trigger parts[k]} :: heads <= k < (if isNew then |parts| else |parts| - 1) ==> |parts[k]| == bs)
      && (isNew || heads < |parts|)
    }

    // TAILQ_INSERT_TAIL
    method InsertTail(b: Block)
      requires Linked() && b !in blocks && b.next == null
      modifies `first, `last, `blocks, blocks`next, b`index
      ensures Linked() && blocks == old(blocks) + [b] && last == b
    {
      b.index := |blocks|;
      if last == null {
        first := b;
      } else {
        last.next := b;
      }
      last := b;
      blocks := blocks + [b];
      forall k {:trigger blocks[k].next} | 0 <= k < |blocks|
        ensures blocks[k].next == if k + 1 < |blocks| then blocks[k + 1] else null
      {
        assert k < |old(blocks)| ==> blocks[k] == old(blocks)[k] && blocks[k].index == k;
      }
    }

    // A block with nothing in it yet, which becomes the block to write.
    method AddBlock()
      requires Shape() && isFull
      modifies `blockNum, `writeP, `first, `last, `blocks, blocks`next
      ensures Linked() && Pouring(true) && Placed() && Where() == old(Where())
      ensures blocks == old(blocks) + [last] && fresh(last)
    {
      hide Placed;
      ReaderSound();
      var b := new Block();
      blockNum := blockNum + 1;
      writeP := b;
      InsertTail(b);
      BehindTail();
    }

    // A block at the end makes no difference to the reader.
    twostate lemma BehindTail()
      requires old(Shape()) && Linked() && readP == old(readP) && isEmpty == old(isEmpty)
      requires |blocks| > 0 && blocks[..|blocks| - 1] == old(blocks) && blocks[|blocks| - 1].readCount == 0
      requires forall b :: b in old(blocks) ==>
                 b.readCount == old(b.readCount) && b.data == old(b.data) && b.index == old(b.index)
      ensures readP != null ==> readP in blocks
      ensures Placed() && Where() == old(Where())
    {
      hide Filled;
      if readP != null {
        assert readP in old(blocks);
        Reader();
      }
    }

    // While is_full is off, the last block is a block of mwrite's with room in it.
    lemma TailOpen()
      requires Linked() && Filled() && !isFull
      ensures Pouring(false) && heads < |parts| && |parts[|parts| - 1]| < bs
    {
    }

    lemma TailFull()
      requires Filled() && isFull
      ensures heads <= |parts| && (heads == |parts| || (parts != [] && |parts[|parts| - 1]| == bs))
    {
    }

    // memcpy at the end of a block, as much as fits; then is_full.
    method Append(cur: Block, data: seq<byte>) returns (n: nat)
      requires |cur.data| < bs && data != []
      modifies `isFull, cur`data
      ensures 1 <= n <= |data| && n == Min(|data|, bs - |old(cur.data)|)
      ensures cur.data == old(cur.data) + data[..n] && isFull == (|cur.data| == bs)
    {
      var free := bs - |cur.data|;
      if |data| <= free {
        n := |data|;
        cur.data := cur.data + data[..n];
        isFull := |cur.data| == bs;
      } else {
        n := free;
        cur.data := cur.data + data[..n];
        isFull := true;
      }
    }

    // The same on the block being written.
    method Pour(data: seq<byte>, ghost isNew: bool) returns (n: nat)
      requires Linked() && Pouring(isNew) && Placed() && data != []
      requires !isNew ==> |parts[|parts| - 1]| < bs
      modifies `isFull, `parts, blocks`data
      ensures Filled() && Placed() && Where() == old(Where()) && 1 <= n <= |data|
      ensures var m := |old(parts)| - (if isNew then 0 else 1);
              var was := if isNew then [] else old(parts)[m];
              n == Min(|data|, bs - |was|) && parts == old(parts)[..m] + [was + data[..n]]
    {
      hide Linked, Placed;
      EndsLinked();
      ReaderIn();
      var cur := writeP;
      ghost var m := |blocks| - 1;
      n := Append(cur, data);
      parts := parts[..m] + [cur.data];
      OthersKeep();
      Longer();
    }

    lemma ReaderIn()
      requires Placed()
      ensures readP != null ==> readP in blocks
    {
    }

    // The other blocks hold what they held.
    twostate lemma OthersKeep()
      requires old(Linked()) && blocks == old(blocks) && blocks != []
      requires forall b :: b in blocks && b != blocks[|blocks| - 1] ==> b.data == old(b.data)
      ensures forall k {:trigger blocks[k].data} :: 0 <= k < |blocks| - 1 ==> blocks[k].data == old(blocks[k].data)
    {
      assert forall k {:trigger blocks[k].data} :: 0 <= k < |blocks| ==> old(blocks[k].index) == k;
    }

    // A reader does not mind that its block gets longer.
    twostate lemma Longer()
      requires old(Placed()) && blocks == old(blocks) && readP == old(readP) && isEmpty == old(isEmpty)
      requires forall b :: b in blocks ==>
                 b.readCount == old(b.readCount) && b.index == old(b.index) && |b.data| >= old(|b.data|)
      ensures readP != null ==> readP in blocks
      ensures old(readP != null ==> readP in blocks)
      ensures Placed() && Where() == old(Where())
    {
    }

    // The head of the loop of mwrite: a block with room in it.
    method OpenTail() returns (ghost isNew: bool)
      requires Shape()
      modifies `blockNum, `writeP, `first, `last, `blocks, blocks`next
      ensures Linked() && Pouring(isNew) && Placed() && isNew == isFull
      ensures (readP != null ==> readP in blocks) && Where() == old(Where())
      ensures heads <= |parts|
      ensures if isNew then heads == |parts| || (parts != [] && |parts[|parts| - 1]| == bs)
              else heads < |parts| && |parts[|parts| - 1]| < bs
      ensures old(blocks) <= blocks && forall k :: |old(blocks)| <= k < |blocks| ==> fresh(blocks[k])
    {
      hide Linked, Filled, Placed, Pouring;
      isNew := isFull;
      ReaderSound();
      if isFull {
        TailFull();
        AddBlock();
      } else {
        TailOpen();
      }
    }

    // One round of the loop of mwrite.
    method WriteRound(data: seq<byte>) returns (n: nat)
      requires Shape() && data != []
      modifies `isFull, `parts, `blockNum, `writeP, `first, `last, `blocks, blocks`data, blocks`next
      ensures Shape() && 1 <= n <= |data|
      ensures Abs() == Write(old(Abs()), data[..n])
      ensures old(blocks) <= blocks && forall k :: |old(blocks)| <= k < |blocks| ==> fresh(blocks[k])
    {
      hide Linked, Filled, Placed, Pouring, Write, Place;
      ReaderSound();
      ghost var reader, was := Where(), parts;
      ghost var isNew := OpenTail();
      n := Pour(data, isNew);
      PlaceAfterPour(bs, heads, was, reader, isNew, data[..n]);
    }

    // mwrite
    method Mwrite(data: seq<byte>) returns (r: int)
      requires Valid()
      modifies `totalSize, `isFull, `parts, `blockNum, `writeP, `first, `last, `blocks, blocks`data, blocks`next
      ensures r == 1 && Valid() && Abs() == Write(old(Abs()), data)
      ensures old(blocks) <= blocks && forall k :: |old(blocks)| <= k < |blocks| ==> fresh(blocks[k])
    {
      hide Linked, Filled, Placed, Place, Write;
      AbsValid();
      ghost var s := Abs();
      var writed := 0;
      totalSize := totalSize + |data|;
      WriteNothing(s);
      while writed < |data|
        invariant totalSize == old(totalSize) + |data|
        invariant 0 <= writed <= |data| && Shape() && Abs() == Write(s, data[..writed])
        invariant old(blocks) <= blocks && forall k :: |old(blocks)| <= k < |blocks| ==> fresh(blocks[k])
        decreases |data| - writed
      {
        var n := WriteRound(data[writed..]);
        WriteAppend(s, data[..writed], data[writed..][..n]);
        assert data[..writed] + data[writed..][..n] == data[..writed + n];
        writed := writed + n;
      }
      DropAll(data);
      WriteContent(s, data);
      AbsValid();
      r := 1;
    }

    // TAILQ_INSERT_HEAD
    method InsertHead(b: Block)
      requires Linked() && b !in blocks
      modifies `first, `last, `blocks, blocks`index, b`index, b`next
      ensures Linked() && blocks == [b] + old(blocks)
    {
      forall x | x in blocks {
        x.index := x.index + 1;
      }
      b.index := 0;
      b.next := first;
      if first == null {
        last := b;
      }
      first := b;
      blocks := [b] + blocks;
    }

    // The block of mwrite_head, filled and put in front.
    method AddHead(data: seq<byte>)
      requires Shape() && |data| <= bs
      modifies `blockNum, `first, `last, `blocks, `parts, `heads, blocks`index
      ensures Linked() && (data != [] ==> Filled())
      ensures blocks != [] && blocks[1..] == old(blocks) && fresh(blocks[0])
      ensures blocks[0].readCount == 0 && blocks[0].data == data && blockNum == old(blockNum) + 1
      ensures parts == [data] + old(parts) && heads == old(heads) + 1
    {
      hide Linked, Filled, Placed;
      EndsLinked();
      if !isFull {
        TailOpen();
      }
      var b := new Block();
      blockNum := blockNum + 1;
      InsertHead(b);
      b.data := data;
      parts := [data] + parts;
      heads := heads + 1;
      if data != [] {
        InFront(data);
      }
      EndsLinked();
    }

    // What the blocks hold with one more in front.
    twostate lemma InFront(data: seq<byte>)
      requires old(Filled()) && 1 <= |data| <= bs && heads == old(heads) + 1 && blockNum == old(blockNum) + 1
      requires blocks != [] && blocks[1..] == old(blocks) && blocks[0].data == data && parts == [data] + old(parts)
      requires forall b :: b in old(blocks) ==> b.data == old(b.data)
      requires isFull == old(isFull) && writeP == old(writeP) && (!isFull ==> last == old(last))
      ensures Filled()
    {
      forall k {:trigger blocks[k].data} | 0 <= k < |blocks| ensures blocks[k].data == parts[k] {
        assert k > 0 ==> blocks[k] == old(blocks)[k - 1];
      }
      forall k {:trigger parts[k]} | 0 < k < |parts| ensures parts[k] == old(parts)[k - 1] {
      }
    }

    lemma EndsLinked()
      requires Linked()
      ensures last == if blocks == [] then null else blocks[|blocks| - 1]
    {
    }

    // mwrite_head: -1 when the data does not fit a block. No data makes an empty block,
    // which no other operation expects.
    method MwriteHead(data: seq<byte>) returns (r: int)
      requires Valid()
      modifies `totalSize, `newHeaderSize, `blockNum, `first, `last, `blocks, `parts, `heads, blocks`index
      ensures if |data| > bs then blocks == old(blocks)
              else blocks != [] && fresh(blocks[0]) && blocks[1..] == old(blocks)
      ensures data != [] <==> Valid()
      ensures data != [] ==>
                if |data| > bs then r == -1 && Abs() == old(Abs()) && newHeaderSize == old(newHeaderSize)
                else r == 1 && Abs() == WriteHead(old(Abs()), data) && newHeaderSize == old(newHeaderSize) + |data|
      ensures data == [] ==>
                && r == 1 && Linked() && blockNum == old(blockNum) + 1 && blocks[0].data == []
                && totalSize == old(totalSize) && newHeaderSize == old(newHeaderSize)
    {
      hide Linked, Filled, Place, WriteHead;
      if |data| > bs {
        return -1;
      }
      ReaderSound();
      if data != [] {
        PlaceAfterHead(bs, heads, parts, Where(), data);
      }
      if readP != null {
        Reader();
      }
      totalSize := totalSize + |data|;
      newHeaderSize := newHeaderSize + |data|;
      AddHead(data);
      if data != [] {
        BehindHead();
      } else {
        EmptyBlock();
      }
      r := 1;
    }

    lemma EmptyBlock()
      requires blocks != [] && blocks[0].data == []
      ensures !Filled()
    {
    }

    twostate lemma OldBlock(b: Block)
      requires old(Linked()) && b in old(blocks) && blocks != [] && blocks[1..] == old(blocks)
      ensures old(b.index) + 1 < |blocks| && blocks[old(b.index) + 1] == b
    {
    }

    // A block in front moves the reader's block back by one.
    twostate lemma BehindHead()
      requires old(Shape()) && Linked() && Filled() && readP == old(readP) && isEmpty == old(isEmpty)
      requires blocks != [] && blocks[1..] == old(blocks) && blocks[0].readCount == 0
      requires forall b :: b in old(blocks) ==> b.readCount == old(b.readCount) && b.data == old(b.data)
      ensures Placed() && Where() == Shift(old(Where()))
    {
      hide Linked, Filled;
      forall k {:trigger blocks[k].readCount} | 0 < k < |blocks|
        ensures blocks[k].readCount == old(blocks[k - 1].readCount)
      {
        assert blocks[k] == old(blocks)[k - 1];
      }
      if readP != null {
        OldBlock(readP);
        BlockAt(old(readP.index) + 1);
      }
    }
  }
}
