// How far the memory loader reads, and exactly when the two loaders agree on lines
// that are not continued.

module IniReach {
  import opened Bytes
  import opened IniLine
  import opened IniLoad
  import opened IniLoadMem

  // A text cut at its terminators, up to the first piece that does not fit the buffer.
  function Reached(s: string): seq<string>
    decreases |s|
  {
    if s == "" then [] else
    var p := |Upto(s, ENDS)|;
    if p >= ASCIILINESZ then [] else [s[..p]] + Reached(s[Min(p + 1, |s|)..])
  }

  lemma ReachedFold(st: Store, s: string)
    requires s != ""
    ensures var p := |Upto(s, ENDS)|;
            Fold(st, Reached(s)) ==
            if p >= ASCIILINESZ then st else Fold(Apply(st, s[..p]), Reached(s[Min(p + 1, |s|)..]))
  {
    hide Apply;
    var p := |Upto(s, ENDS)|;
    if p < ASCIILINESZ {
      var more := Reached(s[Min(p + 1, |s|)..]);
      assert ([s[..p]] + more)[1..] == more;
    }
  }

  // A terminator by itself makes an empty piece.
  lemma EndSkipped(st: Store, s: string)
    requires s != "" && s[0] in ENDS
    ensures Fold(st, Reached(s)) == Fold(st, Reached(s[1..]))
  {
    hide Apply, Reached;
    UptoIs(s, ENDS, 0);
    ReachedFold(st, s);
    EmptyApplies(st);
  }

  lemma EmptyApplies(st: Store)
    ensures Apply(st, "") == st
  {
    StripTrimmed("");
  }

  lemma TailApplies(st: Store, t: string, c: string)
    requires AllSpace(c)
    ensures Apply(st, t + c) == Apply(st, t)
  {
    hide ClassifyStripped, AllSpace;
    TailIgnored(t, c);
  }

  // The next line of the memory loader, and where it goes on.
  lemma LineIs(st: Store, s: string)
    requires s != "" && |Upto(s, ENDS)| < ASCIILINESZ
    ensures var p, g := |Upto(s, ENDS)|, GetLine(s, ASCIILINESZ);
            && g.r > 0 && Apply(st, CString(g.buf)) == Apply(st, s[..p])
            && (g.r == p || g.r == p + 1 || (g.r == p + 2 <= |s| && s[p + 1] in ENDS))
            && (g.r == p ==> p > 0)
  {
    hide Apply, Upto;
    var p, g := |Upto(s, ENDS)|, GetLine(s, ASCIILINESZ);
    UptoFacts(s, ENDS);
    var t := s[..p];
    ZeroEnds(t, "\r");
    ZeroEnds(t, "\n");
    ZeroEnds(t, "\r\n");
    ZeroEnds(t, "\0");
    ZeroEnds(t, "");
    TailApplies(st, t, "\r");
    TailApplies(st, t, "\n");
    TailApplies(st, t, "\r\n");
    assert t + "" == t;
    if At(s, p) == '\r' && At(s, p + 1) == '\n' {
      assert s[..p + 2] == t + "\r\n" && s[..p + 1] == t + "\r";
    }
  }

  lemma ZeroEnds(t: string, c: string)
    requires forall i :: 0 <= i < |t| ==> t[i] !in ENDS
    ensures '\0' !in c ==> CString(t + c) == t + c
    ensures c == "\0" ==> CString(t + c) == t
  {
    hide Upto;
    if '\0' !in c {
      assert forall i :: 0 <= i < |t + c| ==> (t + c)[i] != '\0';
      UptoIs(t + c, {'\0'}, |t + c|);
      assert (t + c)[..|t + c|] == t + c;
    }
    if c == "\0" {
      UptoIs(t + c, {'\0'}, |t|);
      assert (t + c)[..|t|] == t;
    }
  }

  lemma MemStep(st: Store, mem: string, tpos: nat)
    requires tpos < |mem|
    ensures var g := GetLine(mem[tpos..], ASCIILINESZ);
            Fold(st, MemLines(mem, tpos, |mem|)) ==
            if g.r == 0 then st else Fold(Apply(st, CString(g.buf)), MemLines(mem, tpos + g.r, |mem|))
  {
    hide Apply, CString, GetLine;
    var g := GetLine(mem[tpos..], ASCIILINESZ);
    if g.r != 0 {
      var more := MemLines(mem, tpos + g.r, |mem|);
      assert ([CString(g.buf)] + more)[1..] == more;
    }
  }

  lemma {:induction false} MemFold(st: Store, mem: string, tpos: nat)
    requires tpos <= |mem|
    ensures Fold(st, MemLines(mem, tpos, |mem|)) == Fold(st, Reached(mem[tpos..]))
    decreases |mem| - tpos
  {
    hide Apply, Upto, Reached, CString, GetLine, MemLines, Fold;
    if tpos == |mem| {
      AtTheEnd(mem);
    } else {
      var s := mem[tpos..];
      var p, g := |Upto(s, ENDS)|, GetLine(s, ASCIILINESZ);
      ReachedFold(st, s);
      MemStep(st, mem, tpos);
      if p >= ASCIILINESZ {
        TooLong(s);
      } else {
        LineIs(st, s);
        var u, next := Apply(st, s[..p]), tpos + g.r;
        if next <= |mem| {
          MemFold(u, mem, next);
        } else {
          AtTheEnd(mem);
          BehindTheEnd(mem, next);
        }
        Skips(u, s, g.r);
        assert mem[Min(next, |mem|)..] == s[Min(g.r, |s|)..];
      }
    }
  }

  lemma AtTheEnd(mem: string)
    ensures MemLines(mem, |mem|, |mem|) == [] == Reached(mem[|mem|..])
  {
    assert mem[|mem|..] == "";
  }

  lemma BehindTheEnd(mem: string, tpos: nat)
    requires tpos > |mem|
    ensures MemLines(mem, tpos, |mem|) == []
  {
  }

  // Going on at the terminator, behind it, or behind one more terminator.
  lemma Skips(st: Store, s: string, r: nat)
    requires var p := |Upto(s, ENDS)|; r == p || r == p + 1 || (r == p + 2 <= |s| && s[p + 1] in ENDS)
    ensures var p := |Upto(s, ENDS)|;
            Fold(st, Reached(s[Min(p + 1, |s|)..])) == Fold(st, Reached(s[Min(r, |s|)..]))
  {
    hide Upto, Reached;
    var p := |Upto(s, ENDS)|;
    UptoFacts(s, ENDS);
    if r == p && p < |s| {
      EndSkipped(st, s[p..]);
      assert s[p..][1..] == s[p + 1..];
    } else if r == p + 2 {
      EndSkipped(st, s[p + 1..]);
      assert s[p + 1..][1..] == s[p + 2..];
    }
  }

  lemma NothingReached()
    ensures Reached("") == []
  {
  }

  lemma TooLong(s: string)
    requires |Upto(s, ENDS)| >= ASCIILINESZ
    ensures GetLine(s, ASCIILINESZ).r == 0
  {
  }

  // The memory loader folds the pieces of a text up to the first that does not fit,
  // and takes what stands before it for the whole.
  lemma MemReach(mem: string)
    ensures LoadMem(mem, |mem|) == Finish(Fold(Start(), Reached(mem)))
  {
    hide Reached, MemLines, Fold;
    MemFold(Start(), mem, 0);
    DropAll(mem);
  }

  // ---------------------------------------------------------------------------
  // Lines
  // ---------------------------------------------------------------------------

  // A line without the CR at its end.
  function Body(l: string): string {
    if l != "" && l[|l| - 1] == '\r' then l[..|l| - 1] else l
  }

  // How many lines are read before one is too long.
  function Reach(lines: seq<string>): (n: nat)
    ensures n <= |lines|
  {
    if lines == [] || |Body(lines[0])| >= ASCIILINESZ then 0 else 1 + Reach(lines[1..])
  }

  // No terminators but for a CR at the end.
  predicate Whole(l: string) {
    '\n' !in l && '\0' !in l && NoBareCr(l)
  }

  lemma BodyIs(st: Store, l: string, rest: string)
    requires Whole(l)
    ensures var s := l + "\n" + rest;
            && |Body(l)| + 1 <= |s| && |Upto(s, ENDS)| == |Body(l)| && s[..|Body(l)|] == Body(l)
            && Apply(st, Body(l)) == Apply(st, l)
            && Fold(st, Reached(s[|Body(l)| + 1..])) == Fold(st, Reached(rest))
  {
    hide Apply, Upto, Reached;
    var s, b := l + "\n" + rest, Body(l);
    UptoIs(s, ENDS, |b|);
    assert s[|l| + 1..] == rest;
    assert b + "" == b;
    if b != l {
      assert b + "\r" == l;
      TailApplies(st, b, "\r");
      EndSkipped(st, s[|l|..]);
      assert s[|l|..][1..] == rest;
    }
  }

  lemma {:induction false} LinesReach(st: Store, lines: seq<string>)
    requires forall l :: l in lines ==> Whole(l)
    ensures Fold(st, Reached(Text(lines))) == Fold(st, lines[..Reach(lines)])
    decreases lines
  {
    hide Apply, Upto, Reached, Body, Whole;
    if lines == [] {
      NothingReached();
      assert Text(lines) == "" && lines[..Reach(lines)] == [];
    } else {
      var l, more := lines[0], lines[1..];
      var s := l + "\n" + Text(more);
      BodyIs(st, l, Text(more));
      ReachedFold(st, s);
      if |Body(l)| < ASCIILINESZ {
        var u := Apply(st, l);
        BodyIs(u, l, Text(more));
        LinesReach(u, more);
        var n := Reach(more);
        var some := lines[..n + 1];
        assert Reach(lines) == n + 1 && some[0] == l && some[1..] == more[..n];
      } else {
        assert lines[..0] == [];
      }
    }
  }

  // Of lines without zeros and bare CRs the memory loader reads those before the first
  // of 1024 or more characters, and drops the rest without a word.
  lemma LinesReached(lines: seq<string>)
    requires forall l :: l in lines ==> Whole(l)
    ensures LoadMem(Text(lines), |Text(lines)|) == Finish(Fold(Start(), lines[..Reach(lines)]))
  {
    hide Reached, LoadMem, Fold;
    MemReach(Text(lines));
    LinesReach(Start(), lines);
  }

  lemma {:induction false} AllReached(lines: seq<string>)
    requires forall l :: l in lines ==> Short(l)
    ensures lines[..Reach(lines)] == lines
  {
    if lines != [] {
      assert Short(lines[0]);
      AllReached(lines[1..]);
      var n := Reach(lines[1..]);
      assert lines[..n + 1] == [lines[0]] + lines[1..][..n];
      assert lines == [lines[0]] + lines[1..];
    }
  }

  // On lines that are not continued, and have no zeros and bare CRs, the loaders agree
  // exactly if all lines fit, or if the memory loader fails as well for what it reads.
  lemma LoadersAgreeWhen(lines: seq<string>)
    requires forall l :: l in lines ==> Whole(l) && !Continues(StripRight(l))
    ensures var text := Text(lines);
            LoadMem(text, |text|) == Load(text) <==>
            (forall l :: l in lines ==> Fits(l)) || Finish(Fold(Start(), lines[..Reach(lines)])).None?
  {
    hide LoadMem, Fold, Continues, StripRight, Body, NoBareCr;
    LinesReached(lines);
    if forall l :: l in lines ==> Fits(l) {
      LoadsLines(lines);
      AllReached(lines);
    } else {
      var i :| 0 <= i < |lines| && !Fits(lines[i]);
      assert lines[i] in lines;
      LongLineFails(lines, "", i);
    }
  }
}
