// Runs of a memory file: what a reader gets when writes and reads alternate, and
// copying a stretch from one file to another.

module MfileRuns {
  import opened Bytes
  import opened MfileState
  import opened Mfile

  datatype Op = OWrite(data: seq<byte>) | ORead(n: nat)

  // One operation and the bytes it delivers.
  function Step(s: State, op: Op): (State, seq<byte>)
    requires s.heads <= |s.parts|
  {
    match op
    case OWrite(data) => (Write(s, data), [])
    case ORead(n) => (Read(s, n).0, Read(s, n).2)
  }

  function Run(s: State, ops: seq<Op>): (State, seq<byte>)
    requires s.heads <= |s.parts|
    decreases |ops|
  {
    if ops == [] then (s, [])
    else
      var (t, out) := Step(s, ops[0]);
      var (u, more) := Run(t, ops[1..]);
      (u, out + more)
  }

  // The guard of the failing branch: bytes go into a block that the reader has
  // already recorded as used up.
  predicate Loses(s: State, op: Op)
    requires s.heads <= |s.parts|
  {
    op.OWrite? && op.data != [] && s.AtEnd() && s.Room() > 0
  }

  predicate LosesAny(s: State, ops: seq<Op>)
    requires s.heads <= |s.parts|
    decreases |ops|
  {
    ops != [] && (Loses(s, ops[0]) || LosesAny(Step(s, ops[0]).0, ops[1..]))
  }

  // Writing moves the reader only past the bytes it thereby loses.
  lemma {:induction false} WriteMoves(s: State, data: seq<byte>)
    requires s.heads <= |s.parts| && s.mode != Parked && s.pos <= |s.Content()|
    ensures var t := Write(s, data);
            && t.mode == s.mode && s.pos <= t.pos <= |t.Content()|
            && t.Content() == s.Content() + data
            && (t.pos > s.pos <==> Loses(s, OWrite(data)))
    decreases |data|
  {
    WriteContent(s, data);
    if data != [] {
      var u := PutByte(s, data[0]);
      PutByteContent(s, data[0]);
      WriteMoves(u, data[1..]);
      if !s.AtEnd() || s.Room() <= 0 {
        assert !u.AtEnd();
      }
    }
  }

  // One call of a run.
  lemma StepDelivers(s: State, op: Op)
    requires s.heads <= |s.parts| && s.mode != Parked && s.pos <= |s.Content()|
    ensures var (t, out) := Step(s, op);
            && t.heads <= |t.parts| && t.mode != Parked && s.Content() <= t.Content()
            && s.pos + |out| <= t.pos <= |t.Content()|
            && (s.pos + |out| == t.pos <==> !Loses(s, op))
            && (s.pos + |out| == t.pos ==> out == t.Content()[s.pos..t.pos])
  {
    if op.OWrite? {
      WriteMoves(s, op.data);
    }
  }

  // The bytes delivered by any run of writes and reads are the content from where
  // the reader stood to where it stands, exactly when no write lost anything.
  lemma {:induction false} RunDelivers(s: State, ops: seq<Op>)
    requires s.heads <= |s.parts| && s.mode != Parked && s.pos <= |s.Content()|
    ensures var (t, out) := Run(s, ops);
            && s.Content() <= t.Content()
            && s.pos + |out| <= t.pos <= |t.Content()|
            && (out == t.Content()[s.pos..t.pos] <==> !LosesAny(s, ops))
            && (s.pos + |out| == t.pos <==> !LosesAny(s, ops))
    decreases |ops|
  {
    hide Step, Loses;
    if ops != [] {
      var (u, out) := Step(s, ops[0]);
      StepDelivers(s, ops[0]);
      RunDelivers(u, ops[1..]);
      var (t, more) := Run(u, ops[1..]);
      if !LosesAny(s, ops) {
        assert out == t.Content()[s.pos..u.pos];
        Slices(t.Content(), s.pos, u.pos, t.pos);
      }
    }
  }

  // After a rewind, a run that loses nothing delivers the content from its start.
  lemma RunFromStart(s: State, ops: seq<Op>)
    requires s.heads <= |s.parts| && !LosesAny(Seek(s), ops)
    ensures var (t, out) := Run(Seek(s), ops); out <= t.Content() && |out| == t.pos
  {
    RunDelivers(Seek(s), ops);
  }

  // Losing is possible: whenever some bytes are written, all of them read, and more
  // written that still fit the block, the reader never sees the latter.
  lemma LossHappens(bs: nat, x: seq<byte>, y: seq<byte>, n: nat)
    requires x != [] && y != [] && |x| + |y| <= bs
    ensures var ops := [OWrite(x), ORead(|x|), OWrite(y), ORead(n)];
            LosesAny(Opened(bs), ops) && Run(Opened(bs), ops).1 == x
  {
    hide Run, LosesAny, Write, Read;
    WriteIntoNew(Opened(bs), x);
    var a := State(bs, 0, [x], 0, Fresh);
    assert Opened(bs).parts + [x] == [x];
    FlattenOne(x);
    var b := State(bs, 0, [x], |x|, Reading);
    ReadAll(a);
    WriteIntoRoom(b, y);
    var c := State(bs, 0, [x + y], |x| + |y|, Reading);
    assert b.parts[..0] + [x + y] == [x + y];
    FlattenOne(x + y);
    ReadNone(c, n);
    var o1, o2, o3, o4 := OWrite(x), ORead(|x|), OWrite(y), ORead(n);
    assert [o1, o2, o3, o4] == [o1] + ([o2] + ([o3] + ([o4] + [])));
    RunMore(Opened(bs), o1, [o2] + ([o3] + ([o4] + [])));
    RunMore(a, o2, [o3] + ([o4] + []));
    RunMore(b, o3, [o4] + []);
    RunMore(c, o4, []);
    RunNone(c);
  }

  lemma RunMore(s: State, op: Op, ops: seq<Op>)
    requires s.heads <= |s.parts|
    ensures var (t, out) := Step(s, op);
            && Run(s, [op] + ops) == (Run(t, ops).0, out + Run(t, ops).1)
            && (LosesAny(s, [op] + ops) <==> Loses(s, op) || LosesAny(t, ops))
  {
    hide Step, Loses;
    assert ([op] + ops)[1..] == ops;
  }

  lemma RunNone(s: State)
    requires s.heads <= |s.parts|
    ensures Run(s, []) == (s, []) && !LosesAny(s, [])
  {
  }

  lemma ReadAll(s: State)
    requires s.mode == Fresh && s.pos == 0 && s.parts != [] && s.Content() != []
    ensures Read(s, |s.Content()|).0 == s.(pos := |s.Content()|, mode := Reading)
    ensures Read(s, |s.Content()|).2 == s.Content()
  {
    DropAll(s.Content());
  }

  lemma ReadNone(s: State, n: nat)
    requires s.mode == Reading && s.pos == |s.Content()| && s.parts != []
    ensures Read(s, n).0 == s && Read(s, n).2 == []
  {
  }

  // Reading in two goes is reading in one.
  lemma ReadSplit(s: State, a: nat, b: nat)
    requires s.parts != []
    ensures var (t, k, d) := Read(s, a);
            var (u, k', d') := Read(t, b);
            Read(s, a + b).0 == u && Read(s, a + b).1 == k + k' && Read(s, a + b).2 == d + d'
  {
    var (t, k, d) := Read(s, a);
    var (u, k', d') := Read(t, b);
    if s.mode != Parked && s.pos < |s.Content()| {
      Slices(s.Content(), s.pos, s.pos + k, s.pos + k + k');
    }
  }

  // mgetc is a read of one byte, with zero for the end.
  lemma GetCharIsRead(s: State)
    requires s.parts != [] && s.mode != Parked
    ensures GetChar(s).0 == Read(s, 1).0
    ensures GetChar(s).1 == if Read(s, 1).1 == 1 then Read(s, 1).2[0] else 0
  {
    if s.pos < |s.Content()| {
      assert Read(s, 1).2 == s.Content()[s.pos..s.pos + 1];
    }
  }

  // ---------------------------------------------------------------------------
  // mfile_copy
  // ---------------------------------------------------------------------------

  // An unsigned int taken as an int.
  function AsInt(u: int): int {
    var w := u % 0x1_0000_0000;
    if w < 0x8000_0000 then w else w - 0x1_0000_0000
  }

  // How many bytes mread can still deliver.
  function Readable(s: State): nat {
    if s.parts == [] || s.mode == Parked || |s.Content()| <= s.pos then 0 else |s.Content()| - s.pos
  }

  const STAGE := 1024

  lemma ReadWhatIsThere(s: State, n: nat)
    ensures var k := Min(n, Readable(s));
            s.pos + k <= |s.Content()| || k == 0
    ensures Readable(s) > 0 ==>
              var k := Min(n, Readable(s));
              Read(s, n).1 == k && Read(s, n).2 == s.Content()[s.pos..s.pos + k]
              && Read(s, n).0 == s.(pos := s.pos + k, mode := Reading)
    ensures Readable(s) == 0 ==> Read(s, n).1 <= 0 && Read(s, n).2 == []
  {
  }

  // Two files with no block in common.
  ghost predicate Apart(dest: MFile, src: MFile)
    reads dest, dest.blocks, src, src.blocks
  {
    && dest != src && dest.Valid() && src.Valid()
    && forall i, j :: 0 <= i < |dest.blocks| && 0 <= j < |src.blocks| ==> dest.blocks[i] != src.blocks[j]
  }

  // One round of mfile_copy: at most a buffer full from one file to the other.
  method Stage(dest: MFile, src: MFile, buffer: array<byte>, j: nat) returns (ret: int)
    requires Apart(dest, src) && j <= buffer.Length
    modifies src`isEmpty, src`readP, src.blocks`readCount, buffer
    modifies dest`totalSize, dest`isFull, dest`parts, dest`blockNum, dest`writeP, dest`first, dest`last, dest`blocks
    modifies dest.blocks`data, dest.blocks`next
    ensures Apart(dest, src)
    ensures old(dest.blocks) <= dest.blocks
    ensures forall k :: |old(dest.blocks)| <= k < |dest.blocks| ==> fresh(dest.blocks[k])
    ensures var (t, k, d) := Read(old(src.Abs()), j);
            src.Abs() == t && ret == k && dest.Abs() == Write(old(dest.Abs()), d)
  {
    hide MFile.Linked, MFile.Filled, MFile.Placed, MFile.Abs, Write;
    dest.AbsValid();
    src.AbsValid();
    WriteNothing(dest.Abs());
    ret := src.Mread(buffer, j);
    if ret > 0 {
      var _ := dest.Mwrite(buffer[..ret]);
    }
  }

  // A copy of which `n` bytes are done stands so that the next stage extends it.
  ghost predicate Copied(v: State, d: State, n: nat, src: State, dest: State) {
    && n <= Readable(v) && v.pos + n <= |v.Content()|
    && src == (if n == 0 then v else v.(pos := v.pos + n, mode := Reading))
    && d.heads <= |d.parts|
    && dest == Write(d, v.Content()[v.pos..v.pos + n])
  }

  lemma CopiedMore(v: State, d: State, n: nat, src: State, dest: State, j: nat)
    requires Copied(v, d, n, src, dest) && 0 < j && v.Valid()
    ensures dest.heads <= |dest.parts|
    ensures var (t, k, data) := Read(src, j);
            if n == Readable(v) then k <= 0 && Copied(v, d, n, t, Write(dest, data))
            else k == Min(j, Readable(v) - n) && Copied(v, d, n + k, t, Write(dest, data))
  {
    hide Write;
    ReadWhatIsThere(src, j);
    var (t, k, data) := Read(src, j);
    if n == Readable(v) {
      if v.mode == Fresh && v.parts != [] {
        BlockSlice(v.parts, 0);
      }
      WriteNothing(dest);
    } else {
      var c, o := v.Content(), v.pos + n;
      assert data == c[o..o + k];
      WriteAppend(d, c[v.pos..o], data);
      Slices(c, v.pos, o, o + k);
    }
  }

  // How a copy of [start, end) that finds `v` to read from comes out.
  ghost predicate CopyEnds(v: State, d: State, start: nat, end: nat, src: State, dest: State, r: int) {
    var n := if start < end then Min(end - start, Readable(v)) else 0;
    && Copied(v, d, n, src, dest)
    && r == if start < end && n < end - start && n % STAGE == 0 then -1 else AsInt(end - start)
  }

  // One round again, seen from a copy of which `n` bytes are done.
  method CopyRound(dest: MFile, src: MFile, buffer: array<byte>, j: nat, ghost v: State, ghost d: State, ghost n: nat)
    returns (ret: int)
    requires Apart(dest, src) && 0 < j <= buffer.Length && v.Valid()
    requires Copied(v, d, n, src.Abs(), dest.Abs()) && n <= Readable(v)
    modifies src`isEmpty, src`readP, src.blocks`readCount, buffer
    modifies dest`totalSize, dest`isFull, dest`parts, dest`blockNum, dest`writeP, dest`first, dest`last, dest`blocks
    modifies dest.blocks`data, dest.blocks`next
    ensures Apart(dest, src)
    ensures old(dest.blocks) <= dest.blocks
    ensures forall k :: |old(dest.blocks)| <= k < |dest.blocks| ==> fresh(dest.blocks[k])
    ensures if n == Readable(v) then ret <= 0 && Copied(v, d, n, src.Abs(), dest.Abs())
            else ret == Min(j, Readable(v) - n) && Copied(v, d, n + ret, src.Abs(), dest.Abs())
  {
    hide MFile.Linked, MFile.Filled, MFile.Placed, MFile.Abs, Write, Copied, Read, Readable;
    CopiedMore(v, d, n, src.Abs(), dest.Abs(), j);
    ret := Stage(dest, src, buffer, j);
  }

  // The ways out of the loop: `n` bytes are done.
  lemma CopyDone(v: State, d: State, start: nat, end: nat, n: nat, src: State, dest: State)
    requires Copied(v, d, n, src, dest)
    requires n == if start < end then Min(end - start, Readable(v)) else 0
    ensures CopyEnds(v, d, start, end, src, dest,
                     if start < end && n < end - start && n % STAGE == 0 then -1 else AsInt(end - start))
  {
    hide Copied, Readable;
  }

  // A round that is asked for `j` bytes of those that are left.
  lemma NextStage(n: nat, j: nat, ret: nat)
    requires n % STAGE == 0 && 0 < ret <= j <= STAGE
    ensures (n + ret) % STAGE == 0 <==> ret == STAGE
  {
  }

  // The loop of mfile_copy. A short read ends the copy as if it were complete; a
  // source that runs out on a full stage makes it fail.
  method CopyLoop(dest: MFile, src: MFile, start: nat, end: nat, ghost v: State, ghost d: State) returns (r: int)
    requires Apart(dest, src) && v == src.Abs() && v.Valid() && d == dest.Abs()
    modifies src`isEmpty, src`readP, src.blocks`readCount
    modifies dest`totalSize, dest`isFull, dest`parts, dest`blockNum, dest`writeP, dest`first, dest`last, dest`blocks
    modifies dest.blocks`data, dest.blocks`next
    ensures Apart(dest, src) && CopyEnds(v, d, start, end, src.Abs(), dest.Abs(), r)
  {
    hide MFile.Linked, MFile.Filled, MFile.Placed, MFile.Abs, Write, Copied, Read, Readable, CopyEnds, AsInt;
    var buffer := new byte[STAGE];
    dest.AbsValid();
    CopiedNothing(v, d);
    ghost var n := 0;
    var i := start;
    while i < end
      invariant Apart(dest, src) && Copied(v, d, n, src.Abs(), dest.Abs())
      invariant i == start + n && n % STAGE == 0 && (i <= end || n == 0) && n <= Readable(v)
      invariant old(dest.blocks) <= dest.blocks
      invariant forall k :: |old(dest.blocks)| <= k < |dest.blocks| ==> fresh(dest.blocks[k])
      decreases end - i
    {
      var j := if end - i < STAGE then end - i else STAGE;
      var ret := CopyRound(dest, src, buffer, j, v, d, n);
      if ret <= 0 {
        CopyDone(v, d, start, end, n, src.Abs(), dest.Abs());
        return -1;
      }
      NextStage(n, j, ret);
      n := n + ret;
      if ret < STAGE {
        CopyDone(v, d, start, end, n, src.Abs(), dest.Abs());
        return AsInt(end - start);
      }
      i := i + j;
    }
    CopyDone(v, d, start, end, n, src.Abs(), dest.Abs());
    return AsInt(end - start);
  }

  // mfile_copy
  method MfileCopy(dest: MFile, src: MFile, start: nat, end: nat) returns (r: int)
    requires Apart(dest, src)
    modifies src`isEmpty, src`readP, src.blocks`readCount
    modifies dest`totalSize, dest`isFull, dest`parts, dest`blockNum, dest`writeP, dest`first, dest`last, dest`blocks
    modifies dest.blocks`data, dest.blocks`next
    ensures Apart(dest, src)
    ensures CopyEnds(SeekPos(old(src.Abs()), AsInt(start)), old(dest.Abs()), start, end, src.Abs(), dest.Abs(), r)
  {
    hide MFile.Linked, MFile.Filled, MFile.Placed, MFile.Abs, SeekPos, CopyEnds;
    src.RewindTo(AsInt(start));
    src.AbsValid();
    r := CopyLoop(dest, src, start, end, src.Abs(), dest.Abs());
  }

  // The copy is the stretch asked for, and says so, exactly when there is nothing
  // to copy or the stretch does not begin where a block ends.
  lemma CopyFaithful(s: State, d: State, start: nat, end: nat, src: State, dest: State, r: int)
    requires s.Valid() && d.heads <= |d.parts| && d.pos <= |d.Content()|
    requires start <= end <= |s.Content()| < 0x8000_0000
    requires CopyEnds(SeekPos(s, AsInt(start)), d, start, end, src, dest, r)
    ensures r == end - start && dest.Content() == d.Content() + s.Content()[start..end]
            <==> start == end || start == 0 || !s.AtBlockEnd(start)
  {
    hide CopyEnds, SeekPos, Flatten;
    CopyReport(s, d, start, end, src, dest, r);
    NilLeft(d.Content());
  }

  // Where a copy from `start` really reads, and how many bytes it finds.
  ghost function Source(s: State, start: nat, end: nat): (nat, nat)
    requires start <= end
  {
    var size := |s.Content()|;
    var from := if start > size then 0 else start;
    (from, if start != 0 && s.AtBlockEnd(start) then 0 else Min(end - start, size - from))
  }

  // For any stretch, also past the end or from a block's end: what arrives, and what
  // is reported. The report is the number of bytes copied exactly when all came; a
  // shortfall is only noticed when it meets a full stage, and passes for complete
  // otherwise. A start past the end copies from the beginning.
  lemma CopyReport(s: State, d: State, start: nat, end: nat, src: State, dest: State, r: int)
    requires s.Valid() && d.heads <= |d.parts| && d.pos <= |d.Content()|
    requires start <= end < 0x8000_0000
    requires CopyEnds(SeekPos(s, AsInt(start)), d, start, end, src, dest, r)
    ensures var (from, n) := Source(s, start, end);
            && from + n <= |s.Content()|
            && dest.Content() == d.Content() + s.Content()[from..from + n]
            && r == (if n < end - start && n % 1024 == 0 then -1 else end - start)
            && (r == n <==> n == end - start)
  {
    hide Write, SeekPos, Source, Readable;
    var v := SeekPos(s, AsInt(start));
    var (from, n) := Source(s, start, end);
    SeekSource(s, start, end);
    WriteContent(d, v.Content()[v.pos..v.pos + n]);
    assert n == 0 ==> v.Content()[v.pos..v.pos + n] == [] == s.Content()[from..from + n];
  }

  // Where the seek before a copy ends up, and how much it leaves to read.
  lemma SeekSource(s: State, start: nat, end: nat)
    requires s.Valid() && start <= end < 0x8000_0000
    ensures var v, (from, n) := SeekPos(s, AsInt(start)), Source(s, start, end);
            && v.Content() == s.Content() && from + n <= |s.Content()|
            && n == (if start < end then Min(end - start, Readable(v)) else 0)
            && (n > 0 ==> v.pos == from)
  {
    hide s.AtBlockEnd;
    EndsInside(s, start);
    if s.parts == [] {
      assert s.Content() == [];
    }
  }

  lemma EndsInside(s: State, p: nat)
    ensures s.AtBlockEnd(p) ==> p <= |s.Content()|
  {
    if s.AtBlockEnd(p) {
      var k :| 0 < k <= |s.parts| && |Flatten(s.parts[..k])| == p;
      OffsetsGrow(s.parts, k, k);
    }
  }

  // The failure at an input: of two blocks, the second cannot be copied by itself.
  lemma SecondBlockIsNotCopied(x: seq<byte>, y: seq<byte>, d: State, src: State, dest: State, r: int)
    requires 0 < |x| && 0 < |y| <= |x| && |x| + |y| < 0x8000_0000 && d.heads <= |d.parts| && d.pos <= |d.Content()|
    requires CopyEnds(SeekPos(State(|x|, 0, [x, y], 0, Fresh), AsInt(|x|)), d, |x|, |x| + |y|, src, dest, r)
    ensures r == -1 && dest.Content() == d.Content()
  {
    var s := State(|x|, 0, [x, y], 0, Fresh);
    assert s.parts[..1] == [x];
    FlattenOne(x);
    assert s.AtBlockEnd(|x|);
    CopyReport(s, d, |x|, |x| + |y|, src, dest, r);
    NilLeft(d.Content());
  }

  lemma CopiedNothing(v: State, d: State)
    requires d.heads <= |d.parts| && v.pos <= |v.Content()|
    ensures Copied(v, d, 0, v, d)
  {
    WriteNothing(d);
  }
}
