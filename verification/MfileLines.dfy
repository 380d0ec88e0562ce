// mread_line: reading a memory file line by line through a one-character cache.

module MfileLines {
  import opened Bytes
  import opened Output
  import opened MfileState
  import opened Mfile

  const LF: byte := 10
  const CR: byte := 13

  // The characters put into the buffer, whether the buffer ran out first (and zero
  // is returned), what is left of the file, and the cached character.
  datatype Line = Line(text: seq<byte>, long: bool, rest: seq<byte>, cache: byte)

  function Before(c: byte, l: Line): Line {
    l.(text := [c] + l.text)
  }

  // mgetc on what is left of the file.
  function Head(rest: seq<byte>): byte {
    if rest == [] then 0 else rest[0]
  }

  function Tail(rest: seq<byte>): seq<byte> {
    if rest == [] then [] else rest[1..]
  }

  // The loop of mread_line with `k` rounds to go. LF in the cache means that
  // nothing is cached.
  function LineFrom(rest: seq<byte>, cache: byte, k: nat): (l: Line)
    ensures |l.text| <= k + 1
    decreases k
  {
    if k == 0 then Line([], true, rest, cache)
    else if cache == LF then Character(Head(rest), Tail(rest), LF, k)
    else Character(cache, rest, CR, k)
  }

  // One round, with its first character in hand.
  function Character(c: byte, rest: seq<byte>, cache: byte, k: nat): (l: Line)
    requires k > 0
    ensures |l.text| <= k + 1
    decreases k, 0
  {
    if c == CR then
      var e := Head(rest);
      if e == 0 then Line([CR, LF], false, Tail(rest), 0)
      else if e != LF then Line([CR], false, Tail(rest), e)
      else Line([CR, LF], false, Tail(rest), LF)
    else if c == LF then Line([LF], false, rest, cache)
    else if c == 0 then Line([], false, rest, cache)
    else Before(c, LineFrom(rest, cache, k - 1))
  }

  // ---------------------------------------------------------------------------
  // When a line comes through
  // ---------------------------------------------------------------------------

  // Up to the first LF, or to the end.
  function FirstLine(rest: seq<byte>): (l: seq<byte>)
    ensures l <= rest
    ensures rest != [] ==> l != [] && l[0] == rest[0]
  {
    if rest == [] then []
    else if rest[0] == LF then [LF]
    else [rest[0]] + FirstLine(rest[1..])
  }

  // No zero byte, and no CR but in a final CR LF.
  predicate Unbroken(l: seq<byte>) {
    l == [] || l == [LF] || l == [CR, LF] || (l[0] != 0 && l[0] != CR && l[0] != LF && Unbroken(l[1..]))
  }

  // The rounds a line takes: CR LF goes in one, and so does finding the end.
  function Rounds(l: seq<byte>): (n: nat)
    ensures n >= 1
  {
    if l == [] || l[0] == LF || l == [CR, LF] then 1 else 1 + Rounds(l[1..])
  }

  ghost predicate ComesThrough(rest: seq<byte>, k: nat) {
    LineFrom(rest, LF, k) == Line(FirstLine(rest), false, rest[|FirstLine(rest)|..], LF)
  }

  // With nothing cached, the first line comes through unchanged, and leaves nothing
  // cached, exactly when it is clean and short enough.
  lemma {:induction false} LineComesThrough(rest: seq<byte>, k: nat)
    ensures ComesThrough(rest, k) <==> Unbroken(FirstLine(rest)) && Rounds(FirstLine(rest)) <= k
    decreases k
  {
    var f := FirstLine(rest);
    if k > 0 {
      assert LineFrom(rest, LF, k) == Character(Head(rest), Tail(rest), LF, k);
      if rest == [] {
        assert rest[|f|..] == [];
      } else if rest[0] == CR {
        CrLine(rest, k);
      } else if rest[0] != LF && rest[0] != 0 {
        LineComesThrough(rest[1..], k - 1);
        OneMore(rest, k);
      }
    }
  }

  lemma NoRound(rest: seq<byte>, cache: byte)
    ensures LineFrom(rest, cache, 0) == Line([], true, rest, cache)
  {
  }

  lemma OneRound(rest: seq<byte>, k: nat)
    requires k > 0
    ensures LineFrom(rest, LF, k) == Character(Head(rest), Tail(rest), LF, k)
  {
  }

  lemma OneMore(rest: seq<byte>, k: nat)
    requires k > 0 && rest != [] && rest[0] != CR && rest[0] != LF && rest[0] != 0
    ensures var f, f' := FirstLine(rest), FirstLine(rest[1..]);
            && f == [rest[0]] + f' && f[1..] == f'
            && (ComesThrough(rest, k) <==> ComesThrough(rest[1..], k - 1))
  {
    var c, f' := rest[0], FirstLine(rest[1..]);
    var l := LineFrom(rest[1..], LF, k - 1);
    assert LineFrom(rest, LF, k) == Before(c, l);
    assert rest[|f'| + 1..] == rest[1..][|f'|..];
    assert ([c] + l.text)[1..] == l.text && ([c] + f')[1..] == f';
  }

  lemma CrLine(rest: seq<byte>, k: nat)
    requires k > 0 && rest != [] && rest[0] == CR
    ensures ComesThrough(rest, k) <==> |rest| > 1 && rest[1] == LF
    ensures Unbroken(FirstLine(rest)) <==> |rest| > 1 && rest[1] == LF
    ensures |rest| > 1 && rest[1] == LF ==> Rounds(FirstLine(rest)) == 1
  {
    hide LineFrom, FirstLine;
    var f, t := FirstLine(rest), rest[1..];
    OneRound(rest, k);
    CrFirst(rest);
    if t != [] {
      Drops(rest, 1, 1);
    }
  }

  lemma CrFirst(rest: seq<byte>)
    requires rest != [] && rest[0] == CR
    ensures if |rest| == 1 then FirstLine(rest) == [CR]
            else if rest[1] == LF then FirstLine(rest) == [CR, LF]
            else |FirstLine(rest)| > 1 && FirstLine(rest)[1] == rest[1]
  {
    var t := rest[1..];
    assert FirstLine(rest) == [CR] + FirstLine(t);
    if t != [] {
      assert t[0] == rest[1];
    }
  }

  // The lines of a text, and mread_line called until it returns zero.
  function Lines(rest: seq<byte>): seq<seq<byte>>
    decreases |rest|
  {
    if rest == [] then []
    else [FirstLine(rest)] + Lines(rest[|FirstLine(rest)|..])
  }

  // A line is no longer than what it takes from the file and the cache.
  lemma {:induction false} Shrinks(rest: seq<byte>, cache: byte, k: nat)
    ensures var l := LineFrom(rest, cache, k);
            !l.long && l.text != [] ==>
              |l.rest| < |rest| || (l.rest == rest == [] && l.cache == 0 && cache != 0 && cache != LF)
    ensures |LineFrom(rest, cache, k).rest| <= |rest|
    decreases k
  {
    if k > 0 && cache == LF && Head(rest) != CR && Head(rest) != LF && Head(rest) != 0 {
      Shrinks(Tail(rest), LF, k - 1);
    } else if k > 1 && cache != LF && cache != CR && cache != 0 {
      assert LineFrom(rest, cache, k) == Before(cache, LineFrom(rest, CR, k - 1));
      assert LineFrom(rest, CR, k - 1) == Character(CR, rest, CR, k - 1);
    }
  }

  // Nothing is returned, or zero because the buffer ran out.
  predicate Stops(l: Line) {
    l.long || l.text == []
  }

  function Pieces(rest: seq<byte>, cache: byte, k: nat): seq<seq<byte>>
    decreases |rest|, if cache == 0 || cache == LF then 0 else 1
  {
    var l := LineFrom(rest, cache, k);
    Shrinks(rest, cache, k);
    if Stops(l) then [] else [l.text] + Pieces(l.rest, l.cache, k)
  }

  // Every line of the text is clean and takes at most `k` rounds.
  predicate Tame(rest: seq<byte>, k: nat)
    decreases |rest|
  {
    rest == [] || (Unbroken(FirstLine(rest)) && Rounds(FirstLine(rest)) <= k && Tame(rest[|FirstLine(rest)|..], k))
  }

  // At the end, with nothing cached, nothing comes and nothing changes.
  lemma NothingMore(k: nat)
    ensures LineFrom([], LF, k) == Line([], k == 0, [], LF)
    ensures Pieces([], LF, k) == []
  {
    assert k > 0 ==> LineFrom([], LF, k) == Character(0, [], LF, k);
  }

  // The two cases of a first character, for a first line that arrives as it is.
  lemma EndTells(rest: seq<byte>, k: nat)
    requires k > 0 && rest != [] && (rest[0] == CR || rest[0] == LF || rest[0] == 0)
    requires !LineFrom(rest, LF, k).long && LineFrom(rest, LF, k).text == FirstLine(rest)
    ensures ComesThrough(rest, k)
  {
    OneRound(rest, k);
    if rest[0] == CR {
      CrFirst(rest);
    }
  }

  lemma OtherTells(rest: seq<byte>, k: nat)
    requires k > 0 && rest != [] && rest[0] != CR && rest[0] != LF && rest[0] != 0
    requires !LineFrom(rest, LF, k).long && LineFrom(rest, LF, k).text == FirstLine(rest)
    ensures var l := LineFrom(rest[1..], LF, k - 1); !l.long && l.text == FirstLine(rest[1..])
    ensures rest[1..] == [] ==> ComesThrough(rest[1..], k - 1)
  {
    hide FirstLine;
    OneRound(rest, k);
    OneMore(rest, k);
    var l := LineFrom(rest[1..], LF, k - 1);
    assert LineFrom(rest, LF, k) == Before(rest[0], l);
    assert ([rest[0]] + l.text)[1..] == l.text;
    if rest[1..] == [] {
      NothingComes(k - 1);
    }
  }

  lemma NothingComes(k: nat)
    ensures k > 0 ==> ComesThrough([], k)
    ensures k == 0 ==> LineFrom([], LF, k).long
  {
    if k > 0 {
      assert LineFrom([], LF, k) == Character(0, [], LF, k);
    }
  }

  // If a first line arrives as it is, all of it came through.
  lemma {:induction false} TextTells(rest: seq<byte>, k: nat)
    requires rest != [] && !LineFrom(rest, LF, k).long && LineFrom(rest, LF, k).text == FirstLine(rest)
    ensures ComesThrough(rest, k)
    decreases k
  {
    hide LineFrom, FirstLine, ComesThrough;
    NoRound(rest, LF);
    if rest[0] == CR || rest[0] == LF || rest[0] == 0 {
      EndTells(rest, k);
    } else {
      OtherTells(rest, k);
      OneMore(rest, k);
      if rest[1..] != [] {
        TextTells(rest[1..], k - 1);
      }
    }
  }

  lemma LinesStep(rest: seq<byte>, k: nat)
    requires rest != []
    ensures var f := FirstLine(rest); var t := rest[|f|..];
            && Lines(rest) == [f] + Lines(t) && rest == f + t && |t| < |rest|
            && (Tame(rest, k) <==> ComesThrough(rest, k) && Tame(t, k))
  {
    hide LineFrom, FirstLine, ComesThrough, Unbroken;
    LineComesThrough(rest, k);
  }

  lemma PiecesStep(rest: seq<byte>, k: nat)
    requires rest != [] && ComesThrough(rest, k)
    ensures var f := FirstLine(rest); Pieces(rest, LF, k) == [f] + Pieces(rest[|f|..], LF, k)
  {
    hide LineFrom, FirstLine;
  }

  // If the lines come, the first one came through.
  lemma PiecesTell(rest: seq<byte>, k: nat)
    requires rest != [] && Pieces(rest, LF, k) == Lines(rest)
    ensures ComesThrough(rest, k)
  {
    hide LineFrom, FirstLine, ComesThrough;
    var l := LineFrom(rest, LF, k);
    assert Lines(rest)[0] == FirstLine(rest);
    assert ([l.text] + Pieces(l.rest, l.cache, k))[0] == l.text;
    TextTells(rest, k);
  }

  // mread_line called until it returns zero delivers a text line by line exactly
  // when the text is tame.
  lemma {:induction false} AllLinesComeThrough(rest: seq<byte>, k: nat)
    ensures Pieces(rest, LF, k) == Lines(rest) <==> Tame(rest, k)
    ensures Flatten(Lines(rest)) == rest
    decreases |rest|
  {
    if rest == [] {
      NothingMore(k);
    } else {
      hide Pieces, Lines, Tame, FirstLine, ComesThrough;
      var f := FirstLine(rest);
      var t := rest[|f|..];
      LinesStep(rest, k);
      AllLinesComeThrough(t, k);
      assert ([f] + Lines(t))[0] == f && ([f] + Lines(t))[1..] == Lines(t);
      if Pieces(rest, LF, k) == Lines(rest) {
        PiecesTell(rest, k);
      }
      if ComesThrough(rest, k) {
        PiecesStep(rest, k);
        assert ([f] + Pieces(t, LF, k))[1..] == Pieces(t, LF, k);
      }
    }
  }

  predicate Clean(u: seq<byte>) {
    forall i :: 0 <= i < |u| ==> u[i] != 10 && u[i] != 13 && u[i] != 0
  }

  // Characters other than LF, CR and zero are taken one by one.
  lemma {:induction false} CleanPrefix(u: seq<byte>, w: seq<byte>, k: nat)
    requires |u| <= k && Clean(u)
    ensures var l := LineFrom(w, 10, k - |u|); LineFrom(u + w, 10, k) == l.(text := u + l.text)
    decreases |u|
  {
    hide LineFrom;
    var l := LineFrom(w, 10, k - |u|);
    if u == [] {
      NilLeft(w);
      NilLeft(l.text);
    } else {
      var t := u[1..];
      assert u == [u[0]] + t;
      CleanPrefix(t, w, k - 1);
      CleanRound(u[0], t + w, k);
      Assoc([u[0]], t, w);
      Assoc([u[0]], t, l.text);
    }
  }

  lemma CleanRound(c: byte, rest: seq<byte>, k: nat)
    requires k > 0 && c != 10 && c != 13 && c != 0
    ensures LineFrom([c] + rest, 10, k) == Before(c, LineFrom(rest, 10, k - 1))
  {
    assert ([c] + rest)[1..] == rest;
    OneRound([c] + rest, k);
  }

  // Where a line ends, with nothing cached: behind an LF or CR LF, which come with it; at
  // a zero, which is taken from the file but does not come; at the end of the file; and
  // when the buffer is full, which leaves the rest in the file.
  lemma LineEnds(u: seq<byte>, v: seq<byte>, k: nat)
    requires |u| <= k && Clean(u)
    ensures |u| < k ==> LineFrom(u + ([10] + v), 10, k) == Line(u + [10], false, v, 10)
    ensures |u| < k ==> LineFrom(u + ([13, 10] + v), 10, k) == Line(u + [13, 10], false, v, 10)
    ensures |u| < k ==> LineFrom(u + ([0] + v), 10, k) == Line(u, false, v, 10)
    ensures |u| < k ==> LineFrom(u + [], 10, k) == Line(u, false, [], 10)
    ensures |u| == k ==> LineFrom(u + v, 10, k) == Line(u, true, v, 10)
  {
    hide LineFrom, Character;
    NilLeft(u);
    NoRound(v, LF);
    CleanPrefix(u, v, k);
    if |u| < k {
      AtEnd(v, k - |u|);
      CleanPrefix(u, [10] + v, k);
      CleanPrefix(u, [13, 10] + v, k);
      CleanPrefix(u, [0] + v, k);
      CleanPrefix(u, [], k);
    }
  }

  lemma AtEnd(v: seq<byte>, k: nat)
    requires k > 0
    ensures LineFrom([10] + v, 10, k) == Line([10], false, v, 10)
    ensures LineFrom([13, 10] + v, 10, k) == Line([13, 10], false, v, 10)
    ensures LineFrom([0] + v, 10, k) == Line([], false, v, 10)
    ensures LineFrom([], 10, k) == Line([], false, [], 10)
  {
    OneRound([10] + v, k);
    OneRound([0] + v, k);
    OneRound([13, 10] + v, k);
    OneRound([], k);
    assert ([10] + v)[1..] == v && ([0] + v)[1..] == v;
    assert ([13, 10] + v)[1..] == [10] + v && ([10] + v)[0] == 10;
  }

  // A bare CR ends a line early, and a CR that is not in the file follows the next
  // character.
  lemma {:induction false} BareCr(u: seq<byte>, x: byte, v: seq<byte>, k: nat)
    requires |u| < k && x != 10 && x != 13 && x != 0
    requires Clean(u)
    ensures LineFrom(u + [13, x] + v, 10, k) == Line(u + [13], false, v, x)
    ensures k > 1 ==> [x, 13] <= LineFrom(v, x, k).text
    decreases |u|
  {
    var rest := u + [CR, x] + v;
    if u == [] {
      assert rest == [CR, x] + v && rest[1..] == [x] + v && ([x] + v)[1..] == v;
      NilLeft([CR]);
    } else {
      assert rest[0] == u[0] && rest[1..] == u[1..] + [CR, x] + v;
      BareCr(u[1..], x, v, k - 1);
      assert [u[0]] + (u[1..] + [CR]) == u + [CR];
    }
    if k > 1 {
      CachedThenCr(x, v, k);
    }
  }

  // A CR at the end of the file is given an LF; from then on calls alternate between
  // zero and a CR LF that is not in the file.
  lemma {:induction false} CrAtEnd(u: seq<byte>, k: nat)
    requires |u| < k && Clean(u)
    ensures LineFrom(u + [13], 10, k) == Line(u + [13, 10], false, [], 0)
    ensures LineFrom([], 0, k) == Line([], false, [], 13)
    ensures LineFrom([], 13, k) == Line([13, 10], false, [], 0)
    decreases |u|
  {
    var rest := u + [CR];
    OneRound(rest, k);
    assert LineFrom([], 0, k) == Character(0, [], CR, k);
    assert LineFrom([], CR, k) == Character(CR, [], CR, k);
    if u == [] {
      assert rest == [CR] && rest[1..] == [];
      assert u + [CR, LF] == [CR, LF];
    } else {
      assert rest[0] == u[0] && rest[1..] == u[1..] + [CR];
      CrAtEnd(u[1..], k - 1);
      assert [u[0]] + (u[1..] + [CR, LF]) == u + [CR, LF];
    }
  }

  lemma CachedThenCr(x: byte, v: seq<byte>, k: nat)
    requires 1 < k && x != LF && x != CR && x != 0
    ensures [x, CR] <= LineFrom(v, x, k).text
  {
    var l := LineFrom(v, CR, k - 1);
    assert l == Character(CR, v, CR, k - 1);
    assert LineFrom(v, x, k) == Character(x, v, CR, k) == Before(x, l);
  }

  // ---------------------------------------------------------------------------
  // The method
  // ---------------------------------------------------------------------------

  // What a reader has still ahead of it.
  function Rest(s: State): seq<byte> {
    if s.pos <= |s.Content()| then s.Content()[s.pos..] else []
  }

  lemma GetCharRest(s: State)
    requires s.mode != Parked
    ensures var t := GetChar(s).0;
            && GetChar(s).1 == Head(Rest(s)) && Rest(t) == Tail(Rest(s))
            && t.parts == s.parts && t.mode != Parked
  {
    if s.parts == [] {
      assert s.Content() == [];
    }
  }

  // mgetc, as mread_line uses it.
  method Next(f: MFile) returns (c: byte)
    requires f.Valid() && f.Abs().mode != Parked
    modifies f`isEmpty, f`readP, f.blocks`readCount
    ensures f.Valid() && f.Abs().mode != Parked && f.Abs().parts == old(f.Abs().parts)
    ensures c == Head(Rest(old(f.Abs()))) && Rest(f.Abs()) == Tail(Rest(old(f.Abs())))
  {
    hide MFile.Linked, MFile.Filled, MFile.Placed, MFile.Abs, GetChar;
    GetCharRest(f.Abs());
    c := f.Mgetc();
  }

  // What stands behind a CR: an LF unless another character follows it.
  function Ending(e: byte): seq<byte> {
    if e == 0 || e == LF then [LF] else []
  }

  lemma AfterCrIs(rest: seq<byte>, cache: byte)
    ensures Character(CR, rest, cache, 1) == Line([CR] + Ending(Head(rest)), false, Tail(rest), Head(rest))
  {
    hide LineFrom;
  }

  method PutEnding(cur: Cursor, e: byte)
    requires cur.Valid() && cur.left >= 1
    modifies cur, cur.buf
    ensures cur.Valid() && cur.done == old(cur.done) + Ending(e)
  {
    if e == 0 {
      cur.Put(LF);
    } else if e == LF {
      cur.Put(e);
    } else {
      DropAll(cur.done);
    }
  }

  // The CR case of mread_line: the character after it decides.
  method AfterCr(f: MFile, cur: Cursor)
    requires f.Valid() && f.Abs().mode != Parked && cur.Valid() && cur.left >= 2
    modifies f`isEmpty, f`readP, f`ccache, f.blocks`readCount, cur, cur.buf
    ensures f.Valid() && f.Abs().mode != Parked && f.Abs().parts == old(f.Abs().parts) && cur.Valid()
    ensures var l := Character(CR, Rest(old(f.Abs())), old(f.ccache), 1);
            cur.done == old(cur.done) + l.text && Rest(f.Abs()) == l.rest && f.ccache == l.cache
  {
    hide MFile.Linked, MFile.Filled, MFile.Placed, MFile.Abs, Character, Rest, Head, Tail, Ending;
    AfterCrIs(Rest(f.Abs()), f.ccache);
    cur.Put(CR);
    f.ccache := Next(f);
    PutEnding(cur, f.ccache);
    Assoc(old(cur.done), [CR], Ending(f.ccache));
  }

  // One round of the loop of mread_line.
  method LineRound(f: MFile, cur: Cursor, ghost k: nat) returns (stop: bool, c: byte)
    requires f.Valid() && f.Abs().mode != Parked && cur.Valid() && cur.left >= 2 && k > 0
    modifies f`isEmpty, f`readP, f`ccache, f.blocks`readCount, cur, cur.buf
    ensures f.Valid() && f.Abs().mode != Parked && f.Abs().parts == old(f.Abs().parts) && cur.Valid()
    ensures var l := LineFrom(Rest(old(f.Abs())), old(f.ccache), k);
            if stop then l == Line(l.text, false, Rest(f.Abs()), f.ccache) && cur.done == old(cur.done) + l.text
            else cur.done == old(cur.done) + [c] && l == Before(c, LineFrom(Rest(f.Abs()), f.ccache, k - 1))
  {
    hide MFile.Linked, MFile.Filled, MFile.Placed, MFile.Abs, MFile.Valid;
    if f.ccache == LF {
      c := Next(f);
    } else {
      c := f.ccache;
      f.ccache := CR;
    }
    stop := true;
    if c == CR {
      AfterCr(f, cur);
    } else if c == LF {
      cur.Put(c);
    } else if c == 0 {
      NilLeft(cur.done);
    } else {
      cur.Put(c);
      stop := false;
    }
  }

  ghost predicate Extends(l: Line, done: seq<byte>, more: Line) {
    l == more.(text := done + more.text)
  }

  lemma ExtendsMore(l: Line, done: seq<byte>, c: byte, more: Line)
    requires Extends(l, done, Before(c, more))
    ensures Extends(l, done + [c], more)
  {
    Assoc(done, [c], more.text);
  }

  // mread_line. The zeros that end the string in the buffer are not part of the
  // result.
  method MreadLine(f: MFile, buf: array<byte>, n: nat) returns (r: nat)
    requires f.Valid() && f.Abs().mode != Parked && 2 <= n <= buf.Length
    modifies f`isEmpty, f`readP, f`ccache, f.blocks`readCount, buf
    ensures f.Valid() && f.Abs().mode != Parked && f.Abs().parts == old(f.Abs().parts)
    ensures var l := LineFrom(Rest(old(f.Abs())), old(f.ccache), n - 2);
            && r == (if l.long then 0 else |l.text|) < n && (!l.long ==> buf[..r] == l.text)
            && Rest(f.Abs()) == l.rest && f.ccache == l.cache
  {
    hide MFile.Linked, MFile.Filled, MFile.Placed, MFile.Abs, LineFrom;
    var k := n - 2;
    ghost var l := LineFrom(Rest(f.Abs()), f.ccache, k);
    var cur := new Cursor(buf, n - 1);
    NilLeft(l.text);
    while k > 0
      invariant 0 <= k && f.Valid() && f.Abs().mode != Parked && f.Abs().parts == old(f.Abs().parts)
      invariant cur.Valid() && cur.left == k + 1 && cur.buf == buf && fresh(cur) && cur.limit == n - 1
      invariant Extends(l, cur.done, LineFrom(Rest(f.Abs()), f.ccache, k))
    {
      ghost var done := cur.done;
      var stop, c := LineRound(f, cur, k);
      if stop {
        return n - 1 - cur.left;
      }
      ExtendsMore(l, done, c, LineFrom(Rest(f.Abs()), f.ccache, k - 1));
      k := k - 1;
    }
    NoRound(Rest(f.Abs()), f.ccache);
    r := 0;
  }
}
