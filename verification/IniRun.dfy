// What loading makes of printed items, if each is seen for itself.

module IniRun {
  import opened Bytes
  import opened IniLine
  import opened IniEntry
  import opened IniLoad
  import opened IniDump
  import opened IniRoundTrip
  import opened IniSeen
  import opened IniItems
  import IniWithin

  // ---------------------------------------------------------------------------
  // What the loader sees of an item
  // ---------------------------------------------------------------------------

  function SeenLine(x: Item): string {
    Cut(StripRight(Line(x)))
  }

  lemma {:induction false} CutWithin(t: string, c: char)
    ensures c in Cut(t) ==> c in t
    decreases |t|
  {
    if Continues(t) {
      StripRightWithin(t[..|t| - 1], c);
      CutWithin(StripRight(t[..|t| - 1]), c);
    }
  }

  lemma SeenWithin(x: Item, c: char)
    ensures c in SeenLine(x) ==> c in Line(x)
  {
    CutWithin(StripRight(Line(x)), c);
    StripRightWithin(Line(x), c);
  }

  lemma HeaderSeen(s: string)
    ensures SeenLine(Header(s)) == "[" + s + "]"
  {
    var l := "[" + s + "]";
    StripRightStep(l, |l|);
    DropAll(l);
  }

  // White space behind the value of an entry.
  lemma StripTail(h: string, w: string)
    ensures StripRight(h + StripRight(w)) == StripRight(h + w)
  {
    hide StripRight, IsSpace;
    var v := StripRight(w);
    StripRightFacts(w);
    assert v + w[|v|..] == w;
    Assoc(h, v, w[|v|..]);
    StripMore(h + v, w[|v|..]);
  }

  lemma StripMore(s: string, b: string)
    requires AllSpace(b)
    ensures StripRight(s + b) == StripRight(s)
  {
    hide StripRight, IsSpace;
    StripRightFacts(s);
    var r := StripRight(s);
    var c := s[|r|..];
    assert r + c == s;
    Assoc(r, c, b);
    StripRightIs(r, c + b);
  }

  // Continuing a trimmed value by nothing cuts the value.
  lemma {:induction false} CutEntry(k: string, pad: nat, v: string)
    requires Trimmed(v)
    ensures Trimmed(Cut(v)) && Cut(StripRight(Printed(k, pad, v))) == StripRight(Printed(k, pad, Cut(v)))
    decreases |v|
  {
    hide StripRight;
    var line, h := Printed(k, pad, v), k + seq(pad, _ => ' ') + " = ";
    assert line == h + v;
    if v == "" {
      assert line == h[..|h| - 1] + " ";
      StripRightIs(h[..|h| - 1], " ");
    } else {
      assert line[|line| - 1] == v[|v| - 1] && line + "" == line && v + "" == v;
      StripRightIs(line, "");
      StripRightIs(v, "");
      if Continues(v) {
        var w := v[..|v| - 1];
        StripRightFacts(w);
        assert line[..|line| - 1] == h + w;
        StripTail(h, w);
        assert h + StripRight(w) == Printed(k, pad, StripRight(w));
        CutEntry(k, pad, StripRight(w));
      }
    }
  }

  predicate Heads(x: Item) {
    Classify(SeenLine(x), "").Section?
  }

  lemma HeaderHeads(s: string)
    ensures Heads(Header(s))
  {
    hide Sscanf, Strip, Lower, ScanValue, ScanBare, Unquote, SeenLine;
    HeaderSeen(s);
    StripTrimmed("[" + s + "]");
  }

  // ---------------------------------------------------------------------------
  // Loading the items
  // ---------------------------------------------------------------------------

  function Run(xs: seq<Item>, n: nat): Store
    requires n <= |xs|
  {
    if n == 0 then Start() else Apply(Run(xs, n - 1), SeenLine(xs[n - 1]))
  }

  lemma SeenAt(xs: seq<Item>, a: seq<string>, i: nat)
    requires Seen(a, Lines(xs)) && i < |xs|
    ensures |a| == |xs| && a[i] == SeenLine(xs[i]) && Short(Line(xs[i]))
  {
    hide Line, StripRight, Cut;
    assert Lines(xs)[i] == Line(xs[i]);
  }

  lemma {:induction false} RunIs(xs: seq<Item>, a: seq<string>, n: nat)
    requires Seen(a, Lines(xs)) && n <= |xs| == |a|
    ensures Run(xs, n) == Fold(Start(), a[..n])
  {
    hide Apply, SeenLine, Seen, Fold, Run, Lines;
    if n == 0 {
      NoRun(xs);
      assert a[..0] == [];
      FoldNone(Start());
    } else {
      RunIs(xs, a, n - 1);
      RunStep(xs, n - 1);
      SeenAt(xs, a, n - 1);
      FoldNext(Start(), a, n - 1);
    }
  }

  lemma {:induction false} FoldSolid(st: Store, ls: seq<string>)
    ensures Fold(st, Solid(ls)) == Fold(st, ls)
    decreases ls
  {
    hide Apply, Solid;
    if ls != [] {
      assert ls == [ls[0]] + ls[1..];
      SolidHead(ls[0], ls[1..]);
      if ls[0] == "" {
        BlankApplies(st);
        FoldSolid(st, ls[1..]);
      } else {
        FoldSolid(Apply(st, ls[0]), ls[1..]);
        assert ([ls[0]] + Solid(ls[1..]))[1..] == Solid(ls[1..]);
      }
    } else {
      NothingSolid();
    }
  }

  // If as many keys come back as items were printed, every item has been read for
  // itself.
  lemma AllSeen(lines: seq<string>, xs: seq<Item>, r: Entries) returns (a: seq<string>)
    requires Solid(lines) == Lines(xs) && Load(Text(lines)) == Some(r) && |r| >= |xs|
    requires forall x :: x in xs ==> '\n' !in Line(x)
    ensures Seen(a, Lines(xs)) && Run(xs, |xs|).entries == r && |r| == |xs|
  {
    hide LogicalLines, Fold, Seen, Solid, Line, Text;
    SolidHas(lines);
    forall l | l in lines ensures '\n' !in l {
      if l != "" {
        var i :| 0 <= i < |xs| && Lines(xs)[i] == l;
      }
    }
    SolidCount(lines, "");
    var ls := LogicalLines(Text(lines), "").value;
    a := Solid(ls);
    FoldSolid(Start(), ls);
    IniWithin.FoldCount(Start(), a);
    RunIs(xs, a, |xs|);
    DropAll(a);
  }

  lemma {:induction false} SolidHas(lines: seq<string>)
    ensures forall l :: l in lines ==> l == "" || l in Solid(lines)
  {
    if lines != [] {
      SolidHas(lines[1..]);
    }
  }

  lemma SeenShort(a: seq<string>, xs: seq<Item>, x: Item)
    requires Seen(a, Lines(xs)) && x in xs
    ensures Short(Line(x))
  {
    hide Line, Seen;
    var i :| 0 <= i < |xs| && xs[i] == x;
    SeenAt(xs, a, i);
  }

  // If all items fit, each is read for itself.
  lemma AllFit(lines: seq<string>, xs: seq<Item>)
    requires Solid(lines) == Lines(xs) && forall x :: x in xs ==> Fits(Line(x))
    ensures Load(Text(lines)) == Finish(Run(xs, |xs|))
  {
    hide Load, Fold, Solid, Line, Text, Fits, TrimAll;
    SolidHas(lines);
    forall l | l in lines ensures Fits(l) {
      if l != "" {
        var i :| 0 <= i < |xs| && Lines(xs)[i] == l;
      }
      BlankApplies(Start());
    }
    LoadsLines(lines);
    FoldSolid(Start(), lines);
    FoldTrimmed(Start(), Lines(xs));
    TrimmedIsSeen(Lines(xs));
    RunIs(xs, TrimAll(Lines(xs)), |xs|);
    DropAll(TrimAll(Lines(xs)));
  }

  lemma {:induction false} TrimmedIsSeen(lines: seq<string>)
    requires forall l :: l in lines ==> Fits(l)
    ensures Seen(TrimAll(lines), lines)
  {
    hide StripRight;
    if lines != [] {
      var l := lines[0];
      assert Fits(l);
      TrimmedIsSeen(lines[1..]);
      SeenMore(l, TrimAll(lines[1..]), lines[1..]);
      assert lines == [l] + lines[1..];
    }
  }

  // ---------------------------------------------------------------------------
  // Brackets
  // ---------------------------------------------------------------------------

  // An entry with a closing bracket. Only such an entry can be printed as what looks
  // like a header.
  predicate Bracket(k: string, v: Option<string>) {
    ']' in k || ']' in FlatValue(v)
  }

  ghost function Brackets(e: Entries): set<string> {
    set k | k in e && Bracket(k, e[k])
  }

  lemma StoreBracket(e: Entries, k: string, v: Option<string>)
    ensures |Brackets(e[k := v])| <= |Brackets(e)| + if Bracket(k, v) then 1 else 0
  {
    hide Bracket;
    var a, b := Brackets(e[k := v]), Brackets(e) + if Bracket(k, v) then {k} else {};
    Subset(a, b);
  }

  // A line adds an entry with a bracket only if it has one and is no header.
  lemma BracketStep(st: Store, line: string, has: bool)
    requires ']' !in st.section && (']' in line ==> has)
    ensures var next := Apply(st, line);
            && ']' !in next.section
            && |Brackets(next.entries)| <= |Brackets(st.entries)| + if has && !Classify(line, "").Section? then 1 else 0
  {
    hide Classify, Brackets;
    KindIgnoresSection(line, st.section);
    match Classify(line, st.section)
    case Section(name) =>
      IniWithin.NamesHaveNoBracket(line, st.section);
      StoreBracket(st.entries, name, None);
    case Value(key, value) =>
      StoreBracket(st.entries, st.section + ":" + key, Some(value));
      if ']' !in line {
        IniWithin.ClassifyWithin(line, st.section, ']');
      }
    case _ =>
  }

  lemma NoBrackets()
    ensures Brackets(map[]) == {}
  {
  }

  lemma SameBracket(k: string, a: Option<string>, b: Option<string>)
    requires Shown(a) == Shown(b)
    ensures Bracket(k, a) == Bracket(k, b)
  {
  }

  // An item with a bracket that is not a header.
  predicate HasBracket(x: Item) {
    !x.Header? && Bracket(Key(x), Some(x.v))
  }

  lemma ItemBracket(x: Item)
    requires !x.Header?
    ensures ']' in SeenLine(x) || Heads(x) ==> HasBracket(x)
  {
    hide Sscanf, Strip, Lower, ScanValue, ScanBare, Unquote, SeenLine, Printed;
    StripWithin(SeenLine(x), ']');
    SeenWithin(x, ']');
    PrintedHas(x.e, Pad(x), x.v);
    assert forall c :: c in x.e ==> c in Key(x);
  }

  // The keys of those that are not read as headers.
  function Kept(xs: seq<Item>, n: nat): set<string>
    requires n <= |xs|
  {
    if n == 0 then {} else
    Kept(xs, n - 1) + if HasBracket(xs[n - 1]) && !Heads(xs[n - 1]) then {Key(xs[n - 1])} else {}
  }

  lemma {:induction false} KeptAre(xs: seq<Item>, n: nat)
    requires n <= |xs|
    ensures forall k :: k in Kept(xs, n) ==>
              exists i :: 0 <= i < n && Key(xs[i]) == k && HasBracket(xs[i]) && !Heads(xs[i])
  {
    hide HasBracket, Heads, Key;
    if n > 0 {
      KeptAre(xs, n - 1);
    }
  }

  lemma KeptGrows(xs: seq<Item>, n: nat)
    requires n < |xs| && Different(xs)
    ensures |Kept(xs, n + 1)| == |Kept(xs, n)| + if HasBracket(xs[n]) && !Heads(xs[n]) then 1 else 0
  {
    hide HasBracket, Heads, Key;
    KeptAre(xs, n);
  }

  lemma {:induction false} BracketsRun(xs: seq<Item>, n: nat)
    requires n <= |xs| && Different(xs)
    ensures ']' !in Run(xs, n).section && |Brackets(Run(xs, n).entries)| <= |Kept(xs, n)|
  {
    hide Apply, HasBracket, Brackets, Kept, Different, SeenLine, Key, Classify;
    if n == 0 {
      NoBrackets();
    } else {
      var x := xs[n - 1];
      BracketsRun(xs, n - 1);
      KeptGrows(xs, n - 1);
      if x.Header? {
        HeaderHeads(x.sec);
        BracketStep(Run(xs, n - 1), SeenLine(x), true);
      } else {
        ItemBracket(x);
        BracketStep(Run(xs, n - 1), SeenLine(x), HasBracket(x));
      }
    }
  }

  ghost function Bracketed(xs: seq<Item>): set<string> {
    set x | x in xs && HasBracket(x) :: Key(x)
  }

  // If as many entries with a bracket come back as were printed, none of them has been
  // read as a header.
  lemma NoHeads(xs: seq<Item>, r: Entries)
    requires Different(xs) && Run(xs, |xs|).entries == r && |Brackets(r)| >= |Bracketed(xs)|
    ensures forall x :: x in xs && !x.Header? ==> !Heads(x)
  {
    hide HasBracket, Heads, Key, Kept, Run;
    var kept, all := Kept(xs, |xs|), Bracketed(xs);
    BracketsRun(xs, |xs|);
    KeptAre(xs, |xs|);
    assert kept <= all;
    Subset(kept, all);
    forall i | 0 <= i < |xs| && !xs[i].Header? ensures !Heads(xs[i]) {
      ItemBracket(xs[i]);
      if HasBracket(xs[i]) {
        assert Key(xs[i]) in all;
        var j :| 0 <= j < |xs| && Key(xs[j]) == Key(xs[i]) && !Heads(xs[j]);
        assert i == j;
      }
    }
  }

  // ---------------------------------------------------------------------------
  // Keys are in normal form
  // ---------------------------------------------------------------------------

  // What parsing leaves of a section name.
  predicate Name(s: string) {
    Trimmed(s) && Lower(s) == s && ']' !in s
  }

  predicate FormedAt(e: Entries, k: string)
    requires k in e
  {
    if ':' !in k then Name(k)
    else
      var n := |SectionOf(k)|;
      n < |k| && Normal(k[n + 1..]) && e[k].Some? && Trimmed(e[k].value)
  }

  ghost predicate Formed(e: Entries) {
    forall k :: k in e ==> FormedAt(e, k)
  }

  lemma SectionIsName(line: string, section: string)
    requires Classify(line, section).Section? && ']' !in section
    ensures Name(Classify(line, section).name)
  {
    hide Sscanf, Lower, Strip, Upto;
    IniWithin.NamesHaveNoBracket(line, section);
    var r := Sscanf(IniLine.Header(), Strip(line));
    var x := if |r| == 1 then r[0] else section;
    StripTrims(x);
    LowerTwice(Strip(x));
  }

  // Section names and headers have no colon.
  lemma FormedStep(st: Store, line: string)
    requires ':' !in st.section && ']' !in st.section && Formed(st.entries)
    requires Classify(line, "").Section? ==> ':' !in line
    ensures var next := Apply(st, line); ':' !in next.section && ']' !in next.section && Formed(next.entries)
  {
    hide Classify, Formed, Name, Normal, Trimmed;
    KindIgnoresSection(line, st.section);
    match Classify(line, st.section)
    case Section(name) =>
      SectionIsName(line, st.section);
      IniWithin.ClassifyWithin(line, st.section, ':');
      IniWithin.NamesHaveNoBracket(line, st.section);
      FormedSection(st.entries, name);
    case Value(key, value) =>
      ValueIsNormal(line, st.section);
      FormedEntry(st.entries, st.section, key, value);
    case _ =>
  }

  lemma FormedSection(e: Entries, name: string)
    requires Formed(e) && Name(name) && ':' !in name
    ensures Formed(e[name := None])
  {
    hide Name, Normal, Trimmed, SectionOf;
  }

  lemma FormedEntry(e: Entries, section: string, key: string, value: string)
    requires Formed(e) && ':' !in section && Normal(key) && Trimmed(value)
    ensures Formed(e[section + ":" + key := Some(value)])
  {
    hide Name, Normal, Trimmed, SectionOf;
    var k := section + ":" + key;
    KeyParts(k, section);
    assert k[|section| + 1..] == key;
  }

  lemma {:induction false} FormedRun(xs: seq<Item>, n: nat)
    requires n <= |xs| && forall x :: x in xs ==> ':' !in Sec(x) && (!x.Header? ==> !Heads(x))
    ensures var st := Run(xs, n); ':' !in st.section && ']' !in st.section && Formed(st.entries)
  {
    hide Apply, Formed, SeenLine, Classify;
    if n == 0 {
      NothingFormed();
    } else {
      var x := xs[n - 1];
      FormedRun(xs, n - 1);
      if x.Header? {
        HeaderSeen(x.sec);
      }
      FormedStep(Run(xs, n - 1), SeenLine(x));
    }
  }

  lemma NothingFormed()
    ensures Formed(map[])
  {
  }

  // An item as parsing leaves it, that is not read as a header.
  predicate TidyItem(x: Item) {
    ':' !in Sec(x) && if x.Header? then Name(x.sec) else Normal(x.e) && Trimmed(x.v) && !Heads(x)
  }

  // ---------------------------------------------------------------------------
  // Sections
  // ---------------------------------------------------------------------------

  lemma NameApplies(st: Store, s: string)
    requires Name(s) && ']' !in st.section
    ensures s != "" ==> Apply(st, SeenLine(Header(s))) == Store(st.entries[s := None], s, 0)
    ensures s == "" && Name(st.section) ==>
              Apply(st, SeenLine(Header(s))) == Store(st.entries[st.section := None], st.section, 0)
  {
    hide Strip, Lower, Sscanf, ScanValue, ScanBare, SeenLine;
    HeaderSeen(s);
    if s != "" {
      HeaderReadsBack(s, st.section);
    } else {
      var line := "[" + s + "]";
      StripTrimmed(line);
      HeaderScan(line);
      assert Upto(line[1..], {']'}) == "";
      if Name(st.section) {
        StripTrimmed(st.section);
      }
    }
  }

  lemma SeenApplies(st: Store, x: Item)
    requires !x.Header? && TidyItem(x)
    ensures Apply(st, SeenLine(x)) ==
            if x.e[0] == '#' then st
            else Store(st.entries[st.section + ":" + x.e := Some(ReadValue(Cut(x.v)))], st.section, 0)
  {
    hide Classify, Printed, ReadValue, HeaderLike, Normal, Trimmed, Cut, StripRight;
    CutEntry(x.e, Pad(x), x.v);
    var line := Printed(x.e, Pad(x), Cut(x.v));
    ApplyTrimmed(st, line);
    SameKind(line, st.section);
    PrintedIs(x.e, Pad(x), Cut(x.v), st.section);
    PrintedIs(x.e, Pad(x), Cut(x.v), "");
  }

  lemma SameKind(line: string, section: string)
    ensures Classify(StripRight(line), section) == Classify(line, section)
    ensures Classify(StripRight(line), "") == Classify(line, "")
  {
    hide ClassifyStripped, Strip, StripRight, IsSpace;
    StripRightFacts(line);
    var t := StripRight(line);
    assert t + line[|t|..] == line;
    TailIgnored(t, line[|t|..]);
  }

  lemma TidyHas(x: Item)
    requires TidyItem(x)
    ensures if x.Header? then Name(x.sec) else Normal(x.e) && Trimmed(x.v) && x.e != ""
    ensures ':' !in Sec(x)
  {
  }

  lemma NameHas(s: string)
    ensures Name(s) ==> ']' !in s
    ensures Name(s) && s != "" ==> NameOk(s)
    ensures NameOk(s) || s == "" ==> Name(s)
  {
  }

  ghost predicate Tidy(xs: seq<Item>) {
    Chained(xs) && forall x :: x in xs ==> TidyItem(x)
  }

  predicate OnlyFirstEmpty(xs: seq<Item>) {
    forall j :: 0 < j < |xs| && xs[j].Header? ==> xs[j].sec != ""
  }

  // An empty name behind another section is never read.
  lemma {:induction false} EmptyIsLost(xs: seq<Item>, n: nat)
    requires 0 < n <= |xs| && Tidy(xs) && xs[0].Header? && xs[0].sec != ""
    ensures var st := Run(xs, n); "" !in st.entries && st.section != "" && Name(st.section)
  {
    hide Apply, SeenLine, TidyItem, Name;
    var x := xs[n - 1];
    TidyHas(x);
    if n == 1 {
      NoRun(xs);
      RunStep(xs, 0);
      NameApplies(Start(), x.sec);
    } else {
      EmptyIsLost(xs, n - 1);
      RunStep(xs, n - 1);
      var st := Run(xs, n - 1);
      NameHas(st.section);
      if x.Header? {
        NameApplies(st, x.sec);
      } else {
        SeenApplies(st, x);
      }
    }
  }

  lemma RunStep(xs: seq<Item>, n: nat)
    requires n < |xs|
    ensures Run(xs, n + 1) == Apply(Run(xs, n), SeenLine(xs[n]))
  {
    hide Apply, SeenLine;
  }

  lemma NoRun(xs: seq<Item>)
    ensures Run(xs, 0) == Start()
  {
  }

  // The current section is that of the item before.
  lemma {:induction false} SectionRun(xs: seq<Item>, n: nat)
    requires n <= |xs| && Tidy(xs) && OnlyFirstEmpty(xs)
    ensures Run(xs, n).section == (if n == 0 then "" else Sec(xs[n - 1])) && ']' !in Run(xs, n).section
    ensures Run(xs, n).errs == 0
  {
    hide Apply, SeenLine, TidyItem, Name, Run;
    if n == 0 {
      NoRun(xs);
    } else {
      var x, st := xs[n - 1], Run(xs, n - 1);
      SectionRun(xs, n - 1);
      RunStep(xs, n - 1);
      TidyHas(x);
      NameHas("");
      assert ChainedAt(xs, n - 1);
      if x.Header? {
        NameHas(x.sec);
        NameApplies(st, x.sec);
      } else {
        SeenApplies(st, x);
      }
    }
  }

  // ---------------------------------------------------------------------------
  // What is read
  // ---------------------------------------------------------------------------

  predicate IsRead(x: Item) {
    x.Header? || (x.e != "" && x.e[0] != '#')
  }

  function ReadAs(x: Item): Option<string> {
    if x.Header? then None else Some(ReadValue(Cut(x.v)))
  }

  predicate Gives(e: Entries, x: Item, k: string) {
    IsRead(x) && k == Place(x) && k in e && e[k] == ReadAs(x)
  }

  // The keys and values of the first n items and no others.
  ghost predicate ReadFrom(e: Entries, xs: seq<Item>, n: nat)
    requires n <= |xs|
  {
    && (forall k :: k in e ==> exists j :: 0 <= j < n && Gives(e, xs[j], k))
    && (forall j :: 0 <= j < n && IsRead(xs[j]) ==> Place(xs[j]) in e)
  }

  lemma ReadMore(e: Entries, xs: seq<Item>, n: nat)
    requires n < |xs| && ReadFrom(e, xs, n)
    ensures if IsRead(xs[n]) then ReadFrom(e[Place(xs[n]) := ReadAs(xs[n])], xs, n + 1) else ReadFrom(e, xs, n + 1)
  {
    hide IsRead, Place, ReadAs;
    var x := xs[n];
    if IsRead(x) {
      var next := e[Place(x) := ReadAs(x)];
      forall k | k in next ensures exists j :: 0 <= j < n + 1 && Gives(next, xs[j], k) {
        if k == Place(x) {
          assert Gives(next, xs[n], k);
        } else {
          var j :| 0 <= j < n && Gives(e, xs[j], k);
          assert Gives(next, xs[j], k);
        }
      }
    }
  }

  lemma NothingRead(xs: seq<Item>)
    ensures ReadFrom(map[], xs, 0)
  {
  }

  // Each item is read from its own line and no other.
  lemma {:induction false} ReadRun(xs: seq<Item>, n: nat)
    requires n <= |xs| && Tidy(xs) && OnlyFirstEmpty(xs)
    ensures ReadFrom(Run(xs, n).entries, xs, n)
  {
    hide Apply, SeenLine, TidyItem, Name, ReadValue, Cut, ReadFrom, Run;
    if n == 0 {
      NoRun(xs);
      NothingRead(xs);
    } else {
      var x, st := xs[n - 1], Run(xs, n - 1);
      ReadRun(xs, n - 1);
      ReadMore(st.entries, xs, n - 1);
      SectionRun(xs, n - 1);
      RunStep(xs, n - 1);
      assert ChainedAt(xs, n - 1);
      TidyHas(x);
      NameHas("");
      if x.Header? {
        NameApplies(st, x.sec);
      } else {
        SeenApplies(st, x);
      }
    }
  }

  // An item that is read for its own key and value has a line that can carry it.
  lemma ItemIsOk(x: Item)
    requires !x.Header? && TidyItem(x) && IsRead(x) && Short(Line(x)) && ReadValue(Cut(x.v)) == x.v
    ensures LineOk(x.e, Pad(x), x.v)
  {
    hide Classify, Normal, ReadValue, HeaderLike, Trimmed, StripRight, Printed, LineOk;
    var line := Printed(x.e, Pad(x), x.v);
    ReadShort(Cut(x.v));
    CutEntry(x.e, Pad(x), x.v);
    LastTells(x.e, Pad(x), x.v);
    SameKind(line, "");
    PrintedIs(x.e, Pad(x), x.v, "");
    LineCarries(x.e, Pad(x), x.v);
  }

  lemma LastTells(k: string, pad: nat, v: string)
    requires Trimmed(v) && k != ""
    ensures Continues(StripRight(Printed(k, pad, v))) ==> Continues(v)
  {
    hide StripRight;
    var line := Printed(k, pad, v);
    if v == "" {
      assert line == line[..|line| - 1] + " " && line[|line| - 2] == '=';
      StripRightIs(line[..|line| - 1], " ");
    } else {
      assert line + "" == line && line[|line| - 1] == v[|v| - 1];
      StripRightIs(line, "");
    }
  }

  lemma ReadShort(r: string)
    ensures |ReadValue(r)| <= |r|
  {
  }

  // And the other way round.
  lemma OkIsTidy(x: Item)
    requires !x.Header? && ':' !in Sec(x) && LineOk(x.e, Pad(x), x.v)
    ensures TidyItem(x) && IsRead(x) && ReadAs(x) == Some(x.v) && Fits(Line(x))
  {
    hide Classify, Normal, ReadValue, HeaderLike, StripRight, Printed, LineOk, Fits;
    OkHas(x.e, Pad(x), x.v);
    CutEntry(x.e, Pad(x), x.v);
    SameKind(Line(x), "");
    LineCarries(x.e, Pad(x), x.v);
    KeepsValue(x.v);
  }

  lemma OkHas(e: string, pad: nat, v: string)
    requires LineOk(e, pad, v)
    ensures Normal(e) && e != "" && e[0] != '#' && Trimmed(v) && ValueOk(v) && Cut(v) == v
  {
  }
}
