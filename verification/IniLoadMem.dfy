// Loading INI text from memory, and when the two loaders agree.

module IniLoadMem {
  import opened Bytes
  import opened IniLine
  import opened IniLoad
  import opened IniOrder
  import Dictionary

  // Reading memory: behind the text comes a zero.
  function At(s: string, i: nat): char {
    if i < |s| then s[i] else '\0'
  }

  const ENDS := {'\r', '\n', '\0'}

  // getnstr with room for n characters: what lands in the buffer, and the result.
  // The terminator is kept if there is room for it, and CRLF counts as one. The
  // result is 0 when no terminator is within reach.
  datatype Got = Got(buf: string, r: nat)

  function GetLine(s: string, n: nat): Got {
    var p := |Upto(s, ENDS)|;
    if n <= p then Got(s[..n], 0)
    else if At(s, p) == '\r' && At(s, p + 1) == '\n' && n - p != 1 then
      if n - p != 2 then Got(s[..p + 2], p + 2) else Got(s[..p + 1], p + 1)
    else if n - p != 1 then Got(s[..p] + [At(s, p)], p + 1)
    else Got(s[..p], p)
  }

  method Getnstr(s: string, n: nat) returns (buf: string, r: nat)
    ensures Got(buf, r) == GetLine(s, n)
  {
    buf, r := "", 0;
    var d: nat, m: nat := 0, n;
    while m != 0
      invariant d + m == n && d <= |s| && buf == s[..d]
      invariant forall i :: 0 <= i < d ==> s[i] !in ENDS
      decreases m
    {
      buf := buf + [At(s, d)];
      if At(s, d) in ENDS {
        UptoIs(s, ENDS, d);
        if At(s, d) == '\r' && At(s, d + 1) == '\n' && m != 1 {
          d, m := d + 1, m - 1;
          buf := buf + [At(s, d)];
        }
        m := m - 1;
        if m != 0 {
          d := d + 1;
        } else {
          buf := buf[..d];
        }
        r := d;
        return;
      }
      d, m := d + 1, m - 1;
    }
    UptoFacts(s, ENDS);
  }

  // The lines that iniparser_load_mem sees: they keep their terminators, so neither
  // trimming nor continuation ever happens before classification.
  function MemLines(mem: string, tpos: nat, inilen: nat): seq<string>
    decreases inilen - tpos
  {
    if inilen <= tpos then [] else
    var g := GetLine(mem[Min(tpos, |mem|)..], ASCIILINESZ);
    if g.r == 0 then [] else [CString(g.buf)] + MemLines(mem, tpos + g.r, inilen)
  }

  function LoadMem(mem: string, inilen: nat): Option<Entries> {
    Finish(Fold(Start(), MemLines(mem, 0, inilen)))
  }

  lemma GotFits(s: string, n: nat)
    ensures |CString(GetLine(s, n).buf)| <= |GetLine(s, n).buf| <= n && GetLine(s, n).r <= n
    ensures n > 1 && GetLine(s, n).r != 0 ==> |GetLine(s, n).buf| < n
  {
  }

  // iniparser_load_mem. After strlen the length points at the zero behind the
  // line, so the trimming loop and the test for a backslash never fire.
  method IniparserLoadMem(ini: string, inilen: nat, hashOf: string -> nat) returns (dict: Dictionary.Table?)
    ensures dict == null <==> LoadMem(ini, inilen).None?
    ensures dict != null ==> fresh(dict) && dict.Valid() && Some(dict.M) == LoadMem(ini, inilen)
    ensures dict != null ==> Lined(dict.key[..], Firsts(StoredKeys("", MemLines(ini, 0, inilen))))
  {
    hide Apply, dict.Valid, GetLine, CString, Lined, AddStored, SectionAfter, AddAll, StoredKeys;
    var d := new Dictionary.Table(0, hashOf);
    var tpos, section, errs: nat := 0, "", 0;
    var line, rpos := Getnstr(ini, ASCIILINESZ);
    DropAll(ini);
    ghost var order: seq<string> := [];
    LinedNone(d.key[..]);
    while rpos != 0 && tpos < inilen
      invariant fresh(d) && fresh(d.key) && fresh(d.val) && fresh(d.hash) && d.Valid() && |section| < ASCIILINESZ
      invariant Got(line, rpos) == GetLine(ini[Min(tpos, |ini|)..], ASCIILINESZ)
      invariant LoadMem(ini, inilen) == Finish(Fold(Store(d.M, section, errs), MemLines(ini, tpos, inilen)))
      invariant Lined(d.key[..], order)
      invariant Firsts(StoredKeys("", MemLines(ini, 0, inilen))) ==
                AddAll(order, StoredKeys(section, MemLines(ini, tpos, inilen)))
      decreases inilen - tpos
    {
      GotFits(ini[Min(tpos, |ini|)..], ASCIILINESZ);
      ghost var more := MemLines(ini, tpos + rpos, inilen);
      assert ([CString(line)] + more)[1..] == more;
      StoredStep(order, section, CString(line), more);
      tpos := tpos + rpos;
      ghost var next := AddStored(order, CString(line), section);
      section, errs := Switch(d, CString(line), section, errs, order);
      order := next;
      line, rpos := Getnstr(ini[Min(tpos, |ini|)..], ASCIILINESZ);
    }
    NoneStored(order, section);
    if errs > 0 {
      return null;
    }
    return d;
  }

  // ---------------------------------------------------------------------------
  // Agreement
  // ---------------------------------------------------------------------------

  // A line whose only CR may be the one before the end.
  predicate NoBareCr(l: string) {
    forall i :: 0 <= i < |l| - 1 ==> l[i] != '\r'
  }

  lemma LineGot(l: string, rest: string)
    requires Short(l) && NoBareCr(l)
    ensures GetLine(l + "\n" + rest, ASCIILINESZ) == Got(l + "\n", |l| + 1)
    ensures CString(l + "\n") == l + "\n"
  {
    hide Upto;
    var s, e := l + "\n" + rest, |l| + 1;
    UptoIs(l + "\n", {'\0'}, e);
    assert (l + "\n")[..e] == l + "\n" == s[..e];
    if l != "" && l[|l| - 1] == '\r' {
      UptoIs(s, ENDS, |l| - 1);
    } else {
      UptoIs(s, ENDS, |l|);
      assert s[..|l|] + [At(s, |l|)] == l + "\n";
    }
  }

  function WithEnds(lines: seq<string>): seq<string> {
    if lines == [] then [] else [lines[0] + "\n"] + WithEnds(lines[1..])
  }

  lemma {:induction false} MemReadsLines(before: string, lines: seq<string>)
    requires forall l :: l in lines ==> Short(l) && NoBareCr(l)
    ensures var mem := before + Text(lines); MemLines(mem, |before|, |mem|) == WithEnds(lines)
    decreases lines
  {
    hide Short, NoBareCr, GetLine, CString;
    var mem := before + Text(lines);
    if lines != [] {
      var l, more := lines[0], lines[1..];
      assert Short(l) && NoBareCr(l);
      LineGot(l, Text(more));
      assert mem[|before|..] == l + "\n" + Text(more);
      assert mem == before + (l + "\n") + Text(more);
      MemReadsLines(before + (l + "\n"), more);
    }
  }

  lemma {:induction false} FoldWithEnds(st: Store, lines: seq<string>)
    ensures Fold(st, WithEnds(lines)) == Fold(st, lines)
    decreases lines
  {
    hide ClassifyStripped;
    if lines != [] {
      TailIgnored(lines[0], "\n");
      assert WithEnds(lines)[1..] == WithEnds(lines[1..]);
      FoldWithEnds(Apply(st, lines[0]), lines[1..]);
    }
  }

  // The two loaders agree on every text whose lines end in LF, fit the buffer, have
  // no zero and no bare CR, and do not end in a backslash once trimmed.
  lemma LoadersAgree(lines: seq<string>)
    requires forall l :: l in lines ==> Fits(l) && NoBareCr(l)
    ensures LoadMem(Text(lines), |Text(lines)|) == Load(Text(lines)) == Finish(Fold(Start(), lines))
  {
    hide Short, NoBareCr, Apply;
    LoadsLines(lines);
    MemReadsLines("", lines);
    NilLeft(Text(lines));
    FoldWithEnds(Start(), lines);
  }

  // A backslash at the end of a line makes them differ: the file loader joins the
  // line with the next one, the memory loader takes both as they are.
  lemma ContinuationDiffers(p: string, q: string)
    requires Short(p + "\\") && NoBareCr(p + "\\") && NoBareCr(q) && Fits(p + q)
    ensures var text := Text([p + "\\", q]);
            && LogicalLines(text, "") == Some([StripRight(p + q)])
            && MemLines(text, 0, |text|) == [p + "\\" + "\n", q + "\n"]
  {
    hide LogicalLines, StripRight, MemLines, NoBareCr;
    var a := p + "\\";
    TwoLines(a, q);
    LastIsBackslash(p);
    NilLeft(a);
    LogicalStep(a, Text([q]), "");
    PartsShort(p, q);
    LogicalStep(q, "", p);
    NilLeft(q + "\n");
    NilLeft([StripRight(p + q)]);
    NoLines("");
    MemReadsLines("", [a, q]);
    NilLeft(Text([a, q]));
  }

  lemma TwoLines(a: string, q: string)
    ensures Text([a, q]) == a + "\n" + Text([q]) && Text([q]) == q + "\n" + ""
    ensures WithEnds([a, q]) == [a + "\n", q + "\n"]
  {
    assert [a, q][1..] == [q] && [q][1..] == [];
    assert WithEnds([q]) == [q + "\n"];
  }

  lemma LastIsBackslash(p: string)
    ensures var a := p + "\\"; StripRight(a) == a && Continues(a) && a[..|a| - 1] == p
  {
  }

  lemma PartsShort(p: string, q: string)
    requires Short(p + q)
    ensures '\n' !in q
  {
    assert forall i :: 0 <= i < |q| ==> q[i] == (p + q)[|p| + i];
  }
}
