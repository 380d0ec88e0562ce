// The memory file as its users think of it: one sequence of bytes and a position.

module MfileFlat {
  import opened Bytes
  import opened MfileState
  import Runs = MfileRuns

  // `unread` says that nothing was read since the file was opened or rewound.
  datatype Flat = Flat(bs: nat, content: seq<byte>, pos: nat, unread: bool)

  datatype Call = Put(data: seq<byte>) | PutHead(data: seq<byte>) | Get(n: nat) | GetByte | Rewind | SeekTo(p: int)

  // The return value of a call and the bytes it delivers.
  datatype Reply = Reply(r: int, bytes: seq<byte>)

  predicate Proper(c: Call) {
    c.PutHead? ==> c.data != []
  }

  function DoFlat(f: Flat, c: Call): (Flat, Reply)
    requires f.pos <= |f.content|
  {
    match c
    case Put(data) => (f.(content := f.content + data), Reply(1, []))
    case PutHead(data) =>
      if |data| > f.bs then (f, Reply(-1, []))
      else (f.(content := data + f.content, pos := if f.unread then f.pos else f.pos + |data|), Reply(1, []))
    case Get(n) =>
      if f.content == [] then (f, Reply(-1, [])) else
      var k := Min(n, |f.content| - f.pos);
      (f.(pos := f.pos + k, unread := false), Reply(k, f.content[f.pos..f.pos + k]))
    case GetByte =>
      if f.content == [] then (f, Reply(0, []))
      else if f.pos == |f.content| then (f.(unread := false), Reply(0, []))
      else (f.(pos := f.pos + 1, unread := false), Reply(f.content[f.pos] as int, []))
    case Rewind => (f.(pos := 0, unread := true), Reply(0, []))
    case SeekTo(p) =>
      if f.content == [] || p > |f.content| then (f.(pos := 0, unread := true), Reply(0, []))
      else (f.(pos := if p < 0 then 0 else p, unread := false), Reply(0, []))
  }

  // The same calls on the blocks.
  ghost function Do(s: State, c: Call): (State, Reply)
    requires s.heads <= |s.parts|
  {
    match c
    case Put(data) => (Write(s, data), Reply(1, []))
    case PutHead(data) => if |data| > s.bs then (s, Reply(-1, [])) else (WriteHead(s, data), Reply(1, []))
    case Get(n) => (Read(s, n).0, Reply(Read(s, n).1, Read(s, n).2))
    case GetByte => (GetChar(s).0, Reply(GetChar(s).1 as int, []))
    case Rewind => (Seek(s), Reply(0, []))
    case SeekTo(p) => (SeekPos(s, p), Reply(0, []))
  }

  ghost predicate Same(s: State, f: Flat) {
    && s.heads <= |s.parts| && s.bs == f.bs > 0
    && (forall k :: 0 <= k < |s.parts| ==> s.parts[k] != [])
    && s.Content() == f.content && s.pos == f.pos <= |f.content|
    && s.mode == (if f.unread then Fresh else Reading)
    && (f.unread ==> f.pos == 0)
  }

  // A write into a block that the reader has already recorded as used up, or a seek to
  // where a block ends.
  ghost predicate Strays(s: State, c: Call)
    requires s.heads <= |s.parts|
  {
    match c
    case Put(data) => Runs.Loses(s, Runs.OWrite(data))
    case SeekTo(p) => p > 0 && s.AtBlockEnd(p)
    case _ => false
  }

  lemma {:induction false} NoEmptyParts(s: State, data: seq<byte>)
    requires s.heads <= |s.parts| && forall k :: 0 <= k < |s.parts| ==> s.parts[k] != []
    ensures var t := Write(s, data); t.bs == s.bs && forall k :: 0 <= k < |t.parts| ==> t.parts[k] != []
    decreases |data|
  {
    if data != [] {
      NoEmptyParts(PutByte(s, data[0]), data[1..]);
    }
  }

  lemma NoContent(s: State)
    requires forall k :: 0 <= k < |s.parts| ==> s.parts[k] != []
    ensures s.Content() == [] <==> s.parts == []
  {
    if s.parts != [] {
      assert s.parts[0] != [];
    }
  }

  // Every call answers as the flat file does, and leaves the two alike exactly when
  // it neither writes into a used-up block nor seeks to the end of one.
  lemma CallRefines(s: State, f: Flat, c: Call)
    requires Same(s, f) && Proper(c)
    ensures Do(s, c).1 == DoFlat(f, c).1
    ensures Same(Do(s, c).0, DoFlat(f, c).0) <==> !Strays(s, c)
  {
    hide Write;
    NoContent(s);
    match c
    case Put(data) =>
      Runs.WriteMoves(s, data);
      NoEmptyParts(s, data);
    case PutHead(data) =>
      HeadContent(s, data);
    case Get(n) =>
    case GetByte =>
    case Rewind =>
    case SeekTo(p) =>
      if p > |s.Content()| {
        NoBlockEnd(s, p);
      }
  }

  lemma NoBlockEnd(s: State, p: nat)
    requires p > |s.Content()|
    ensures !s.AtBlockEnd(p)
  {
    hide Flatten;
    if s.AtBlockEnd(p) {
      var k :| 0 < k <= |s.parts| && |Flatten(s.parts[..k])| == p;
      OffsetsGrow(s.parts, k, |s.parts|);
      DropAll(s.parts);
    }
  }

  lemma HeadContent(s: State, data: seq<byte>)
    ensures WriteHead(s, data).Content() == data + s.Content()
  {
    assert ([data] + s.parts)[0] == data && ([data] + s.parts)[1..] == s.parts;
  }

  // ---------------------------------------------------------------------------
  // Runs
  // ---------------------------------------------------------------------------

  ghost function Replies(s: State, calls: seq<Call>): seq<Reply>
    requires s.heads <= |s.parts|
    decreases calls
  {
    if calls == [] then [] else [Do(s, calls[0]).1] + Replies(Do(s, calls[0]).0, calls[1..])
  }

  function FlatReplies(f: Flat, calls: seq<Call>): seq<Reply>
    requires f.pos <= |f.content|
    decreases calls
  {
    if calls == [] then [] else [DoFlat(f, calls[0]).1] + FlatReplies(DoFlat(f, calls[0]).0, calls[1..])
  }

  ghost predicate StraysAny(s: State, calls: seq<Call>)
    requires s.heads <= |s.parts|
    decreases calls
  {
    calls != [] && (Strays(s, calls[0]) || StraysAny(Do(s, calls[0]).0, calls[1..]))
  }

  // Any run of calls none of which strays is answered as by the flat file.
  lemma {:induction false} RunRefines(s: State, f: Flat, calls: seq<Call>)
    requires Same(s, f) && !StraysAny(s, calls)
    requires forall c :: c in calls ==> Proper(c)
    ensures Replies(s, calls) == FlatReplies(f, calls)
    decreases calls
  {
    hide Same, Do, DoFlat, Strays;
    if calls != [] {
      SameBounds(s, f);
      CallRefines(s, f, calls[0]);
      SameBounds(Do(s, calls[0]).0, DoFlat(f, calls[0]).0);
      RunRefines(Do(s, calls[0]).0, DoFlat(f, calls[0]).0, calls[1..]);
    }
  }

  lemma SameBounds(s: State, f: Flat)
    requires Same(s, f)
    ensures s.heads <= |s.parts| && f.pos <= |f.content|
  {
  }

  // From mopen on: what a file answers does not depend on its block size, as long
  // as no call strays and no head block is too big.
  lemma BlockSizeIsInvisible(bs: nat, bs': nat, calls: seq<Call>)
    requires bs > 0 && bs' > 0 && !StraysAny(Opened(bs), calls) && !StraysAny(Opened(bs'), calls)
    requires forall c :: c in calls ==> Proper(c) && (c.PutHead? ==> |c.data| <= bs && |c.data| <= bs')
    ensures Replies(Opened(bs), calls) == Replies(Opened(bs'), calls)
  {
    var f, f' := Flat(bs, [], 0, true), Flat(bs', [], 0, true);
    RunRefines(Opened(bs), f, calls);
    RunRefines(Opened(bs'), f', calls);
    SizeIgnored(f, f', calls);
  }

  lemma {:induction false} SizeIgnored(f: Flat, f': Flat, calls: seq<Call>)
    requires f.pos <= |f.content| && f' == f.(bs := f'.bs)
    requires forall c :: c in calls ==> c.PutHead? ==> |c.data| <= f.bs && |c.data| <= f'.bs
    ensures FlatReplies(f, calls) == FlatReplies(f', calls)
    decreases calls
  {
    hide DoFlat;
    if calls != [] {
      var c := calls[0];
      assert c in calls;
      OneSizeIgnored(f, f', c);
      SizeIgnored(DoFlat(f, c).0, DoFlat(f', c).0, calls[1..]);
    }
  }

  lemma OneSizeIgnored(f: Flat, f': Flat, c: Call)
    requires f.pos <= |f.content| && f' == f.(bs := f'.bs)
    requires c.PutHead? ==> |c.data| <= f.bs && |c.data| <= f'.bs
    ensures DoFlat(f', c).1 == DoFlat(f, c).1 && DoFlat(f', c).0 == DoFlat(f, c).0.(bs := f'.bs)
    ensures DoFlat(f, c).0.pos <= |DoFlat(f, c).0.content| && DoFlat(f, c).0.bs == f.bs
  {
  }
}
