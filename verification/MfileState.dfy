// What a memory file is, seen from outside: the blocks' contents, and where the
// reader stands. Writing is described one byte at a time.

module MfileState {
  import opened Bytes

  // Where the read cursor is. It has not been placed since the last rewind
  // (Fresh), it is somewhere in the data (Reading), or it was sought onto the very
  // end of a block whose exhaustion was not recorded (Parked).
  datatype Mode = Fresh | Reading | Parked

  datatype State = State(
    bs: nat,                  // DATA_BLOCK_SIZE
    heads: nat,               // how many leading blocks mwrite_head made
    parts: seq<seq<byte>>,    // what each block holds
    pos: nat,                 // offset of the next byte to read
    mode: Mode)
  {
    function Content(): seq<byte> {
      Flatten(parts)
    }

    // The free places in the block mwrite is filling.
    function Room(): int
      requires heads <= |parts|
    {
      if heads == |parts| then 0 else bs - |parts[|parts| - 1]|
    }

    // Every mwrite block but the last is full, and no block is empty.
    ghost predicate Valid() {
      && 0 < bs && heads <= |parts|
      && (forall k :: 0 <= k < |parts| ==> 1 <= |parts[k]| <= bs)
      && (forall k :: heads <= k < |parts| - 1 ==> |parts[k]| == bs)
      && pos <= |Content()|
      && (mode == Fresh ==> pos == 0)
      && (mode != Fresh ==> parts != [])
      && (mode == Parked ==> AtBlockEnd(pos))
    }

    // `p` is where some block ends.
    ghost predicate AtBlockEnd(p: nat) {
      exists k :: 0 < k <= |parts| && |Flatten(parts[..k])| == p
    }

    // The reader has recorded the exhaustion of the last block.
    predicate AtEnd() {
      mode == Reading && pos == |Content()|
    }
  }

  function Opened(bs: nat): State {
    State(bs, 0, [], 0, Fresh)
  }

  // One byte written. A byte that lands in a block the reader has recorded as
  // exhausted is passed over; one that lands where the reader is parked frees it.
  function PutByte(s: State, b: byte): State
    requires s.heads <= |s.parts|
  {
    var n := |s.parts|;
    if s.Room() <= 0 then s.(parts := s.parts + [[b]])
    else s.(parts := s.parts[..n - 1] + [s.parts[n - 1] + [b]],
            pos := if s.AtEnd() then s.pos + 1 else s.pos,
            mode := if s.mode == Parked && s.pos == |s.Content()| then Reading else s.mode)
  }

  // mwrite
  function Write(s: State, data: seq<byte>): (t: State)
    requires s.heads <= |s.parts|
    ensures t.heads == s.heads <= |t.parts|
    decreases |data|
  {
    if data == [] then s else Write(PutByte(s, data[0]), data[1..])
  }

  // mwrite_head, which always makes a block of its own
  function WriteHead(s: State, data: seq<byte>): State {
    s.(heads := s.heads + 1,
       parts := [data] + s.parts,
       pos := if s.mode == Fresh then 0 else s.pos + |data|)
  }

  // mread: the new state, the return value and the bytes delivered.
  function Read(s: State, n: nat): (State, int, seq<byte>) {
    if s.parts == [] then (s, -1, [])
    else if s.mode == Parked then (s, 0, [])
    else if |s.Content()| <= s.pos then (s.(mode := Reading), 0, [])
    else
      var k := Min(n, |s.Content()| - s.pos);
      (s.(pos := s.pos + k, mode := Reading), k as int, s.Content()[s.pos..s.pos + k])
  }

  // mgetc, unless the reader is parked: zero when there is nothing to read.
  function GetChar(s: State): (State, byte) {
    if s.parts == [] then (s, 0)
    else if |s.Content()| <= s.pos then (s.(mode := Reading), 0)
    else (s.(pos := s.pos + 1, mode := Reading), s.Content()[s.pos])
  }

  // mseek
  function Seek(s: State): State {
    s.(pos := 0, mode := Fresh)
  }

  // mseek_pos: a position past the end rewinds, and one at the end of a block parks.
  ghost function SeekPos(s: State, p: int): State {
    if s.parts == [] || p > |s.Content()| then Seek(s)
    else if p <= 0 then s.(pos := 0, mode := Reading)
    else s.(pos := p, mode := if s.AtBlockEnd(p) then Parked else Reading)
  }

  // ---------------------------------------------------------------------------
  // Blocks and offsets
  // ---------------------------------------------------------------------------

  lemma {:induction false} FlattenOne<T>(s: seq<T>)
    ensures Flatten([s]) == s
  {
    assert [s][1..] == [];
    NilLeft(s);
  }

  // Block `k` of the blocks occupies a slice of the content.
  lemma BlockSlice<T>(parts: seq<seq<T>>, k: nat)
    requires k < |parts|
    ensures var o := |Flatten(parts[..k])|;
            && |Flatten(parts[..k + 1])| == o + |parts[k]|
            && o + |parts[k]| <= |Flatten(parts)|
            && Flatten(parts)[o..o + |parts[k]|] == parts[k]
            && Flatten(parts[..k]) == Flatten(parts)[..o]
  {
    assert parts[..k + 1] == parts[..k] + [parts[k]];
    FlattenConcat(parts[..k], [parts[k]]);
    FlattenOne(parts[k]);
    assert parts == parts[..k + 1] + parts[k + 1..];
    FlattenConcat(parts[..k + 1], parts[k + 1..]);
  }

  lemma BlockPiece<T>(parts: seq<seq<T>>, k: nat, r: nat, n: nat)
    requires k < |parts| && r + n <= |parts[k]|
    ensures var o := |Flatten(parts[..k])| + r;
            o + n <= |Flatten(parts)| && parts[k][r..r + n] == Flatten(parts)[o..o + n]
    ensures |Flatten(parts[..k + 1])| == |Flatten(parts[..k])| + |parts[k]|
  {
    BlockSlice(parts, k);
  }

  lemma LastBlock<T>(parts: seq<seq<T>>)
    requires parts != []
    ensures var n := |parts|;
            Flatten(parts) == Flatten(parts[..n - 1]) + parts[n - 1]
  {
    var n := |parts|;
    assert parts == parts[..n - 1] + [parts[n - 1]];
    FlattenConcat(parts[..n - 1], [parts[n - 1]]);
    FlattenOne(parts[n - 1]);
  }

  // ---------------------------------------------------------------------------
  // Writing
  // ---------------------------------------------------------------------------

  lemma PutByteContent(s: State, b: byte)
    requires s.heads <= |s.parts|
    ensures PutByte(s, b).Content() == s.Content() + [b]
  {
    var n, t := |s.parts|, PutByte(s, b);
    if s.Room() <= 0 {
      FlattenConcat(s.parts, [[b]]);
      FlattenOne([b]);
    } else {
      LastBlock(s.parts);
      LastBlock(t.parts);
      assert t.parts[..n - 1] == s.parts[..n - 1];
      Assoc(Flatten(s.parts[..n - 1]), s.parts[n - 1], [b]);
    }
  }

  lemma {:induction false} WriteContent(s: State, data: seq<byte>)
    requires s.heads <= |s.parts|
    ensures Write(s, data).Content() == s.Content() + data
    decreases |data|
  {
    if data == [] {
      NilLeft(s.Content());
    } else {
      PutByteContent(s, data[0]);
      WriteContent(PutByte(s, data[0]), data[1..]);
      Assoc(s.Content(), [data[0]], data[1..]);
      assert data == [data[0]] + data[1..];
    }
  }

  lemma WriteNothing(s: State)
    requires s.heads <= |s.parts|
    ensures Write(s, []) == s
  {
  }

  lemma {:induction false} WriteAppend(s: State, a: seq<byte>, b: seq<byte>)
    requires s.heads <= |s.parts|
    ensures Write(Write(s, a), b) == Write(s, a + b)
    decreases |a|
  {
    if a == [] {
      NilLeft(b);
    } else {
      assert (a + b)[0] == a[0] && (a + b)[1..] == a[1..] + b;
      WriteAppend(PutByte(s, a[0]), a[1..], b);
    }
  }

  // A stretch that fits into the block being filled, all at once.
  function Fill(s: State, data: seq<byte>): State
    requires s.heads < |s.parts|
  {
    var n := |s.parts|;
    if data == [] then s
    else s.(parts := s.parts[..n - 1] + [s.parts[n - 1] + data],
            pos := if s.AtEnd() then s.pos + |data| else s.pos,
            mode := if s.mode == Parked && s.pos == |s.Content()| then Reading else s.mode)
  }

  lemma FillContent(s: State, data: seq<byte>)
    requires s.heads < |s.parts|
    ensures Fill(s, data).Content() == s.Content() + data
  {
    var n, t := |s.parts|, Fill(s, data);
    if data == [] {
      NilLeft(s.Content());
    } else {
      LastBlock(s.parts);
      LastBlock(t.parts);
      assert t.parts[..n - 1] == s.parts[..n - 1];
      Assoc(Flatten(s.parts[..n - 1]), s.parts[n - 1], data);
    }
  }

  lemma {:induction false} WriteIntoRoom(s: State, data: seq<byte>)
    requires s.heads < |s.parts| && |data| <= s.Room() && s.pos <= |s.Content()|
    ensures Write(s, data) == Fill(s, data)
    decreases |data|
  {
    if data != [] {
      var n, t := |s.parts|, PutByte(s, data[0]);
      PutByteContent(s, data[0]);
      assert t.Room() == s.Room() - 1;
      WriteIntoRoom(t, data[1..]);
      assert t.parts[..n - 1] == s.parts[..n - 1];
      assert t.parts[n - 1] + data[1..] == s.parts[n - 1] + data by {
        assert data == [data[0]] + data[1..];
        Assoc(s.parts[n - 1], [data[0]], data[1..]);
      }
      if data[1..] == [] {
        assert t.parts[n - 1] == s.parts[n - 1] + data;
      }
    }
  }

  // A stretch that opens a block.
  lemma WriteIntoNew(s: State, data: seq<byte>)
    requires s.heads <= |s.parts| && s.Room() <= 0 && 1 <= |data| <= s.bs
    requires s.pos <= |s.Content()|
    ensures Write(s, data) == s.(parts := s.parts + [data])
  {
    var n, t := |s.parts|, PutByte(s, data[0]);
    PutByteContent(s, data[0]);
    assert data == [data[0]] + data[1..];
    WriteIntoRoom(t, data[1..]);
    assert t.parts[..n] == s.parts;
    if data[1..] == [] {
      assert data == [data[0]];
    }
  }

  // ---------------------------------------------------------------------------
  // Seeking
  // ---------------------------------------------------------------------------

  lemma OffsetsGrow<T>(parts: seq<seq<T>>, i: nat, j: nat)
    requires i <= j <= |parts|
    ensures |Flatten(parts[..i])| <= |Flatten(parts[..j])| <= |Flatten(parts)|
  {
    assert parts[..j] == parts[..i] + parts[i..j];
    FlattenConcat(parts[..i], parts[i..j]);
    assert parts == parts[..j] + parts[j..];
    FlattenConcat(parts[..j], parts[j..]);
  }

  // A position inside a block is at no block's end; one at the end of a block is.
  lemma BlockEnds(s: State, k: nat, p: nat)
    requires k < |s.parts|
    requires |Flatten(s.parts[..k])| < p <= |Flatten(s.parts[..k + 1])|
    ensures s.AtBlockEnd(p) <==> p == |Flatten(s.parts[..k + 1])|
  {
    if s.AtBlockEnd(p) {
      var j :| 0 < j <= |s.parts| && |Flatten(s.parts[..j])| == p;
      if j <= k {
        OffsetsGrow(s.parts, j, k);
      } else {
        OffsetsGrow(s.parts, k + 1, j);
      }
    }
  }

  // With no empty block, everything before the last block ends before the content does.
  lemma BeforeLast<T>(parts: seq<seq<T>>, k: nat)
    requires k < |parts| && parts[|parts| - 1] != []
    ensures |Flatten(parts[..k])| < |Flatten(parts)|
  {
    OffsetsGrow(parts, k, |parts| - 1);
    LastBlock(parts);
  }

  // ---------------------------------------------------------------------------
  // The read cursor of the C structure, on values
  // ---------------------------------------------------------------------------

  // Where a reader is that has read `r` bytes of block `at`, or, if `isEmpty`, has
  // used that block up, whatever it holds by now.
  datatype Reader = Nowhere | OnBlock(at: nat, r: nat, isEmpty: bool)

  function Place(bs: nat, heads: nat, parts: seq<seq<byte>>, reader: Reader): State
    requires reader.OnBlock? ==> reader.at < |parts|
  {
    match reader
    case Nowhere => State(bs, heads, parts, 0, Fresh)
    case OnBlock(at, r, true) => State(bs, heads, parts, |Flatten(parts[..at + 1])|, Reading)
    case OnBlock(at, r, false) => State(bs, heads, parts, |Flatten(parts[..at])| + r,
                                        if r == |parts[at]| then Parked else Reading)
  }

  ghost predicate Sound(parts: seq<seq<byte>>, reader: Reader) {
    && (forall k {:trigger parts[k]} :: 0 <= k < |parts| ==> parts[k] != [])
    && (reader.OnBlock? ==> reader.at < |parts| && reader.r <= |parts[reader.at]|)
  }

  lemma PlaceAfterNew(bs: nat, heads: nat, parts: seq<seq<byte>>, reader: Reader, data: seq<byte>)
    requires Sound(parts, reader) && data != []
    ensures Sound(parts + [data], reader)
    ensures Place(bs, heads, parts + [data], reader) == Place(bs, heads, parts, reader).(parts := parts + [data])
  {
    if reader.OnBlock? {
      assert (parts + [data])[..reader.at] == parts[..reader.at];
      assert (parts + [data])[..reader.at + 1] == parts[..reader.at + 1];
    }
  }

  lemma PlaceAfterFill(bs: nat, heads: nat, parts: seq<seq<byte>>, reader: Reader, data: seq<byte>)
    requires Sound(parts, reader) && data != [] && heads < |parts|
    ensures var s := Place(bs, heads, parts, reader);
            && Sound(Fill(s, data).parts, reader)
            && Place(bs, heads, Fill(s, data).parts, reader) == Fill(s, data)
  {
    if reader.OnBlock? {
      var s, m, at := Place(bs, heads, parts, reader), |parts| - 1, reader.at;
      var filled := Fill(s, data).parts;
      assert filled[..at] == parts[..at];
      LastBlock(parts);
      BlockSlice(parts, at);
      if at == m {
        BlockSlice(filled, at);
        assert parts[..m + 1] == parts && filled[..m + 1] == filled;
        FillContent(s, data);
      } else {
        assert filled[..at + 1] == parts[..at + 1];
        BeforeLast(parts, at + 1);
      }
    }
  }

  lemma PlaceBounds(bs: nat, heads: nat, parts: seq<seq<byte>>, reader: Reader)
    requires Sound(parts, reader)
    ensures Place(bs, heads, parts, reader).pos <= |Flatten(parts)|
  {
    if reader.OnBlock? {
      BlockSlice(parts, reader.at);
    }
  }

  // Pouring a stretch into a new block, or into the open one, is writing it.
  lemma PlaceAfterPour(bs: nat, heads: nat, parts: seq<seq<byte>>, reader: Reader, isNew: bool, data: seq<byte>)
    requires Sound(parts, reader) && data != [] && heads <= |parts| && 0 < bs
    requires if isNew then |data| <= bs && (heads == |parts| || |parts[|parts| - 1]| == bs)
             else heads < |parts| && |parts[|parts| - 1]| + |data| <= bs
    ensures var m := if isNew then |parts| else |parts| - 1;
            var parts' := parts[..m] + [(if isNew then [] else parts[m]) + data];
            && Sound(parts', reader)
            && Place(bs, heads, parts', reader) == Write(Place(bs, heads, parts, reader), data)
  {
    PlaceBounds(bs, heads, parts, reader);
    if isNew {
      PlaceAfterPourNew(bs, heads, parts, reader, data);
    } else {
      PlaceAfterPourOpen(bs, heads, parts, reader, data);
    }
  }

  lemma PlaceAfterPourNew(bs: nat, heads: nat, parts: seq<seq<byte>>, reader: Reader, data: seq<byte>)
    requires Sound(parts, reader) && 1 <= |data| <= bs && heads <= |parts|
    requires heads == |parts| || |parts[|parts| - 1]| == bs
    requires Place(bs, heads, parts, reader).pos <= |Flatten(parts)|
    ensures var parts' := parts[..|parts|] + [[] + data];
            && Sound(parts', reader)
            && Place(bs, heads, parts', reader) == Write(Place(bs, heads, parts, reader), data)
  {
    hide Write;
    NilLeft(data);
    DropAll(parts);
    PlaceAfterNew(bs, heads, parts, reader, data);
    WriteIntoNew(Place(bs, heads, parts, reader), data);
  }

  lemma PlaceAfterPourOpen(bs: nat, heads: nat, parts: seq<seq<byte>>, reader: Reader, data: seq<byte>)
    requires Sound(parts, reader) && data != [] && heads < |parts|
    requires |parts[|parts| - 1]| + |data| <= bs
    requires Place(bs, heads, parts, reader).pos <= |Flatten(parts)|
    ensures var parts' := parts[..|parts| - 1] + [parts[|parts| - 1] + data];
            && Sound(parts', reader)
            && Place(bs, heads, parts', reader) == Write(Place(bs, heads, parts, reader), data)
  {
    hide Write;
    PlaceAfterFill(bs, heads, parts, reader, data);
    WriteIntoRoom(Place(bs, heads, parts, reader), data);
  }

  // mseek_pos stops at block `k`, `p` bytes into it, or falls off the last block.
  lemma SeekLands(s: State, pos: int, k: nat, p: nat)
    requires k < |s.parts| && p <= |s.parts[k]| && s.parts[k] != []
    requires |Flatten(s.parts[..k])| + p == (if pos < 0 then 0 else pos) && (k > 0 ==> p > 0)
    ensures Place(s.bs, s.heads, s.parts, OnBlock(k, p, false)) == SeekPos(s, pos)
  {
    BlockSlice(s.parts, k);
    if pos > 0 {
      BlockEnds(s, k, pos);
    }
  }

  lemma SeekMisses(s: State, pos: int)
    requires s.parts != [] ==> pos > |Flatten(s.parts)|
    ensures Seek(s) == SeekPos(s, pos)
  {
  }

  // A block put in front moves every block one place on.
  function Shift(reader: Reader): Reader {
    if reader.OnBlock? then reader.(at := reader.at + 1) else reader
  }

  lemma PlaceAfterHead(bs: nat, heads: nat, parts: seq<seq<byte>>, reader: Reader, data: seq<byte>)
    requires Sound(parts, reader) && data != []
    ensures Sound([data] + parts, Shift(reader))
    ensures Place(bs, heads + 1, [data] + parts, Shift(reader)) == WriteHead(Place(bs, heads, parts, reader), data)
    ensures |Flatten([data] + parts)| == |data| + |Flatten(parts)|
  {
    FlattenConcat([data], parts);
    FlattenOne(data);
    assert forall k {:trigger ([data] + parts)[k]} :: 0 < k < |parts| + 1 ==> ([data] + parts)[k] == parts[k - 1];
    if reader.OnBlock? {
      HeadOffset(parts, reader.at, data);
      HeadOffset(parts, reader.at + 1, data);
    }
  }

  lemma HeadOffset(parts: seq<seq<byte>>, k: nat, data: seq<byte>)
    requires k <= |parts|
    ensures |Flatten(([data] + parts)[..k + 1])| == |data| + |Flatten(parts[..k])|
  {
    assert ([data] + parts)[..k + 1] == [data] + parts[..k];
    FlattenConcat([data], parts[..k]);
    FlattenOne(data);
  }
}
