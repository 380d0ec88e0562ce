// Printing a dictionary without sections and loading the text.

module IniFlat {
  import opened Bytes
  import opened IniLine
  import opened IniEntry
  import opened IniLoad
  import opened IniDump
  import opened IniRoundTrip
  import opened IniSeen
  import opened IniItems
  import opened IniRun
  import IniWithin
  import Dictionary

  predicate AllBare(xs: seq<Item>) {
    forall x :: x in xs ==> x.Bare?
  }

  // The items of a dictionary without sections.
  ghost predicate Flat(xs: seq<Item>, m: Entries) {
    && Different(xs) && Chained(xs) && AllBare(xs) && (forall x :: x in xs ==> Of(x, m))
    && Keys(xs) == m.Keys
  }

  lemma FlatFacts(keys: Slots, vals: Slots, hashes: seq<nat>, hashOf: string -> nat, m: Entries)
    requires Dictionary.Represents(keys, vals, hashes, hashOf, m) && Sections(keys) == []
    ensures |keys| == |vals| && Flat(DumpItems(keys, vals), m)
    ensures Solid(DumpLines(keys, vals)) == Lines(DumpItems(keys, vals))
  {
    hide Of, Key, Sections, Dictionary.Represents, DumpItems, Lines, Solid, DumpLines, Different, Chained;
    SlotFacts(keys, vals, hashes, hashOf, m);
    DumpSolid(keys, vals);
    DumpItemsOf(keys, vals, m);
    var xs := DumpItems(keys, vals);
    forall k | k in m ensures k in Keys(xs) {
      var i :| 0 <= i < |keys| && keys[i] == Some(k);
    }
    forall k | k in Keys(xs) ensures k in m {
      var x :| x in xs && Key(x) == k;
      KeyIn(x, m);
    }
  }

  lemma KeyIn(x: Item, m: Entries)
    requires Of(x, m)
    ensures Key(x) in m && (x.Bare? ==> x.e in m && x.v == FlatValue(m[x.e]))
  {
  }

  // Without headers every key starts with the colon behind no section.
  lemma {:induction false} ColonRun(xs: seq<Item>, n: nat)
    requires n <= |xs| && AllBare(xs) && forall x :: x in xs ==> !Heads(x)
    ensures var st := Run(xs, n); st.section == "" && forall k :: k in st.entries ==> k != "" && k[0] == ':'
  {
    hide Classify, SeenLine;
    if n > 0 {
      ColonRun(xs, n - 1);
      assert !Heads(xs[n - 1]);
    }
  }

  ghost predicate Colons(e: Entries) {
    forall k :: k in e ==> k != "" && k[0] == ':' && Normal(k[1..]) && e[k].Some? && Trimmed(e[k].value)
  }

  lemma FormedColons(e: Entries)
    requires Formed(e) && forall k :: k in e ==> k != "" && k[0] == ':'
    ensures Colons(e)
  {
    hide Normal, Trimmed, Name, Upto;
    forall k | k in e ensures Normal(k[1..]) && e[k].Some? && Trimmed(e[k].value) {
      assert FormedAt(e, k);
      UptoIs(k, {':'}, 0);
    }
  }

  ghost predicate FlatOneLine(m: Entries) {
    forall k :: k in m ==> '\n' !in k && '\n' !in FlatValue(m[k])
  }

  // If as many entries come back, and no fewer with a bracket, then every line has been
  // read for itself and none as a header.
  lemma Straight(lines: seq<string>, xs: seq<Item>, m: Entries, r: Entries)
    requires Solid(lines) == Lines(xs) && Flat(xs, m) && FlatOneLine(m)
    requires Load(Text(lines)) == Some(r) && |r| == |m| && |Brackets(r)| >= |Bracketed(xs)|
    ensures Run(xs, |xs|).entries == r && Colons(r)
    ensures forall x :: x in xs ==> !Heads(x) && Short(Line(x))
  {
    hide Of, Key, Solid, Lines, Text, Load, Different, Chained, Formed, Brackets, Bracketed, Heads, Line, Run;
    hide FlatValue;
    ItemsFew(xs, m);
    forall x | x in xs ensures '\n' !in Line(x) && ':' !in Sec(x) {
      KeyIn(x, m);
      LineBreak(x);
    }
    var a := AllSeen(lines, xs, r);
    NoHeads(xs, r);
    ColonRun(xs, |xs|);
    FormedRun(xs, |xs|);
    FormedColons(r);
    forall x | x in xs ensures Short(Line(x)) {
      SeenShort(a, xs, x);
    }
  }

  lemma LineBreak(x: Item)
    requires x.Bare? && '\n' !in x.e && '\n' !in x.v
    ensures '\n' !in Line(x)
  {
    PrintedHas(x.e, 0, x.v);
  }

  lemma NoHeaders(xs: seq<Item>)
    requires AllBare(xs)
    ensures OnlyFirstEmpty(xs)
  {
    assert forall j :: 0 <= j < |xs| ==> xs[j] in xs;
  }

  // The same keys, and the same values but for null and empty ones.
  ghost predicate Alike(r: Entries, m: Entries) {
    r.Keys == m.Keys && forall k :: k in m ==> Shown(r[k]) == Shown(m[k])
  }

  lemma AlikeFacts(xs: seq<Item>, r: Entries, m: Entries)
    requires Alike(r, m) && Flat(xs, m)
    ensures |r| == |m| && |Brackets(r)| >= |Bracketed(xs)|
    ensures IniWithin.Without(r, '\n') ==> FlatOneLine(m)
  {
    hide Of, Key, Bracket, FlatValue, Different, Chained;
    assert |r| == |r.Keys| && |m| == |m.Keys|;
    forall x | x in xs && HasBracket(x) ensures Key(x) in Brackets(r) {
      KeyIn(x, m);
      KeyOf(x);
      SameBracket(x.e, r[x.e], m[x.e]);
      SameValue(x.e, m[x.e]);
    }
    Subset(Bracketed(xs), Brackets(r));
    if IniWithin.Without(r, '\n') {
      forall k | k in m ensures '\n' !in k && '\n' !in FlatValue(m[k]) {
        SameBreak(r[k], m[k]);
      }
    }
  }

  lemma SameValue(k: string, v: Option<string>)
    ensures Bracket(k, Some(FlatValue(v))) == Bracket(k, v)
  {
  }

  lemma SameBreak(a: Option<string>, b: Option<string>)
    requires Shown(a) == Shown(b) && (a.Some? ==> '\n' !in a.value)
    ensures '\n' !in FlatValue(b)
  {
  }

  // Keys and values in a result are in normal form.
  lemma AlikeTidy(xs: seq<Item>, m: Entries, r: Entries)
    requires Flat(xs, m) && Alike(r, m) && Colons(r) && forall x :: x in xs ==> !Heads(x)
    ensures Tidy(xs) && OnlyFirstEmpty(xs)
  {
    hide Normal, Trimmed, Of, Key, Heads, Different, Chained;
    NoHeaders(xs);
    forall x | x in xs ensures TidyItem(x) {
      KeyIn(x, m);
      KeyOf(x);
      assert x.e in r && Shown(r[x.e]) == Shown(m[x.e]);
      ColonNormal(x.e);
      NullIsTrimmed();
    }
  }

  lemma ColonNormal(x: string)
    requires x != "" && x[0] == ':' && Normal(x[1..])
    ensures Normal(x)
  {
  }

  lemma NullIsTrimmed()
    ensures Trimmed(FlatValue(None))
  {
  }

  lemma {:induction false} NoEnd(m: Entries, k: string)
    requires forall x :: x in m ==> x != "" && x[1..] in m
    ensures k !in m
  {
    if k != "" {
      NoEnd(m, k[1..]);
    }
  }

  // Every key that is read would have another one behind its colon.
  lemma NothingAlike(xs: seq<Item>, m: Entries, r: Entries)
    requires Flat(xs, m) && Alike(r, m) && ReadFrom(r, xs, |xs|)
    ensures m == map[]
  {
    hide Key, Of, ReadAs, Different, Chained;
    forall k | k in m ensures k != "" && k[1..] in m {
      var j :| 0 <= j < |xs| && Gives(r, xs[j], k);
      KeyIn(xs[j], m);
      KeyOf(xs[j]);
      assert k[1..] == xs[j].e;
    }
    forall k ensures k !in m {
      NoEnd(m, k);
    }
  }

  // A dictionary without sections does not survive printing and loading unless it is
  // empty, not even when null and empty values count as the same.
  lemma FlatIsLost(keys: Slots, vals: Slots, hashes: seq<nat>, hashOf: string -> nat, m: Entries)
    requires Dictionary.Represents(keys, vals, hashes, hashOf, m) && Sections(keys) == []
    ensures var r := Load(Text(DumpLines(keys, vals)));
            && (r == Some(m) <==> m == map[])
            && (r.Some? && Alike(r.value, m) <==> m == map[])
  {
    hide Text, Load, Run, Heads, Colons, Flat, Brackets, Bracketed, Sections, ReadFrom, Tidy, OnlyFirstEmpty;
    hide IniWithin.Without, FlatOneLine, DumpItems, DumpLines, Lines, Solid;
    var lines, xs := DumpLines(keys, vals), DumpItems(keys, vals);
    FlatFacts(keys, vals, hashes, hashOf, m);
    if Load(Text(lines)).Some? && Alike(Load(Text(lines)).value, m) {
      var r := Load(Text(lines)).value;
      IniWithin.LoadedHasNoBreak(Text(lines));
      AlikeFacts(xs, r, m);
      Straight(lines, xs, m, r);
      AlikeTidy(xs, m, r);
      ReadRun(xs, |xs|);
      NothingAlike(xs, m, r);
    }
    if m == map[] {
      NoneFlat(xs, m);
      AllFit(lines, xs);
      NothingRun();
    }
  }

  lemma NoneFlat(xs: seq<Item>, m: Entries)
    requires Flat(xs, m) && m == map[]
    ensures xs == []
  {
    hide Key, Of;
    ItemsFew(xs, m);
  }

  lemma NothingRun()
    ensures Finish(Run([], 0)) == Some(map[])
  {
  }

  // ---------------------------------------------------------------------------
  // What comes back
  // ---------------------------------------------------------------------------

  function Colon(k: string): (x: string)
    ensures x != "" && x[0] == ':' && x[1..] == k
  {
    ":" + k
  }

  function Named(ks: set<string>): set<string> {
    set k | k in ks :: Colon(k)
  }

  // Every key behind a colon, every null value as "(null)".
  function Behind(m: Entries): Entries {
    map x | x in Named(m.Keys) :: Some(FlatValue(m[x[1..]]))
  }

  // Entries that print on a line of their own without a section.
  ghost predicate FlatFormed(m: Entries) {
    forall k :: k in m ==> LineOk(k, 0, FlatValue(m[k]))
  }

  lemma {:induction false} NamedCounts(s: set<string>)
    ensures |Named(s)| == |s|
  {
    if s != {} {
      var k :| k in s;
      NamedCounts(s - {k});
      assert Named(s) == Named(s - {k}) + {Colon(k)};
      assert forall x :: x in s - {k} ==> Colon(x)[1..] == x;
      assert Colon(k)[1..] == k;
    }
  }

  lemma BehindHas(m: Entries, k: string)
    requires k in m
    ensures Colon(k) in Behind(m) && Behind(m)[Colon(k)] == Some(FlatValue(m[k]))
  {
  }

  lemma ColonBracket(k: string, c: char)
    requires c != ':'
    ensures c in Colon(k) <==> c in k
  {
    if c in Colon(k) {
      var i :| 0 <= i < |Colon(k)| && Colon(k)[i] == c;
      assert Colon(k)[1..][i - 1] == c;
    }
    if c in k {
      var i :| 0 <= i < |k| && k[i] == c;
      assert Colon(k)[1..][i] == c;
    }
  }

  lemma BehindBrackets(m: Entries)
    ensures Brackets(Behind(m)) == Named(Brackets(m))
  {
    hide Behind, FlatValue;
    var b := Behind(m);
    forall x | x in b ensures x in Brackets(b) <==> x in Named(Brackets(m)) {
      NamedFrom(m, x);
      var k := x[1..];
      BehindHas(m, k);
      ColonBracket(k, ']');
      SameShown(FlatValue(m[k]));
    }
    forall x | x in Named(Brackets(m)) ensures x in b {
      BehindHas(m, x[1..]);
    }
  }

  lemma NamedFrom(m: Entries, x: string)
    requires x in Behind(m)
    ensures x != "" && x[1..] in m && x == Colon(x[1..])
  {
  }

  lemma SameShown(v: string)
    ensures FlatValue(Some(v)) == v
  {
  }

  lemma BehindCounts(xs: seq<Item>, m: Entries)
    requires Flat(xs, m)
    ensures |Behind(m)| == |m| && |Brackets(Behind(m))| >= |Bracketed(xs)|
    ensures IniWithin.Without(Behind(m), '\n') ==> FlatOneLine(m)
  {
    hide FlatValue, Named, Brackets, Bracketed, Of, Key, Different, Chained;
    var b := Behind(m);
    assert b.Keys == Named(m.Keys) && |b| == |b.Keys| && |m| == |m.Keys|;
    NamedCounts(m.Keys);
    NamedCounts(Brackets(m));
    BehindBrackets(m);
    FlatBrackets(xs, m);
    if IniWithin.Without(b, '\n') {
      forall k | k in m ensures '\n' !in k && '\n' !in FlatValue(m[k]) {
        BehindHas(m, k);
        ColonBracket(k, '\n');
      }
    }
  }

  lemma FlatBrackets(xs: seq<Item>, m: Entries)
    requires Flat(xs, m)
    ensures |Bracketed(xs)| <= |Brackets(m)|
  {
    Subset(Bracketed(xs), Brackets(m));
  }

  lemma BehindTidy(xs: seq<Item>, m: Entries)
    requires Flat(xs, m) && Colons(Behind(m)) && forall x :: x in xs ==> !Heads(x)
    ensures Tidy(xs) && OnlyFirstEmpty(xs)
  {
    hide Normal, Trimmed, Of, Key, Heads, Different, Chained, Behind;
    NoHeaders(xs);
    forall x | x in xs ensures TidyItem(x) {
      KeyIn(x, m);
      KeyOf(x);
      BehindHas(m, x.e);
      assert Colon(x.e)[1..] == x.e;
    }
  }

  lemma ComesBackFormed(xs: seq<Item>, m: Entries)
    requires Flat(xs, m) && Tidy(xs) && ReadFrom(Behind(m), xs, |xs|) && forall x :: x in xs ==> Short(Line(x))
    ensures FlatFormed(m)
  {
    hide Behind, LineOk, ReadValue, Cut, Of, Key, Different, Chained, TidyItem, Line, Short;
    forall k | k in m ensures LineOk(k, 0, FlatValue(m[k])) {
      BehindHas(m, k);
      var j :| 0 <= j < |xs| && Gives(Behind(m), xs[j], Colon(k));
      var x := xs[j];
      KeyIn(x, m);
      KeyOf(x);
      assert Colon(k)[1..] == x.e == k;
      ItemIsOk(x);
    }
  }

  lemma FormedTidy(xs: seq<Item>, m: Entries)
    requires Flat(xs, m) && FlatFormed(m)
    ensures Tidy(xs) && OnlyFirstEmpty(xs)
    ensures forall x :: x in xs ==> IsRead(x) && ReadAs(x) == Some(x.v) && Fits(Line(x))
  {
    hide LineOk, Of, Key, Different, Chained, TidyItem, Line, Fits, ReadAs, IsRead;
    NoHeaders(xs);
    forall x | x in xs ensures TidyItem(x) && IsRead(x) && ReadAs(x) == Some(x.v) && Fits(Line(x)) {
      KeyIn(x, m);
      KeyOf(x);
      assert LineOk(x.e, 0, FlatValue(m[x.e]));
      OkIsTidy(x);
    }
  }

  lemma FormedComesBack(xs: seq<Item>, m: Entries, e: Entries)
    requires Flat(xs, m) && ReadFrom(e, xs, |xs|)
    requires forall x :: x in xs ==> IsRead(x) && ReadAs(x) == Some(x.v)
    ensures e == Behind(m)
  {
    hide FlatValue, Behind, ReadAs, IsRead, Of, Key, Different, Chained;
    var b := Behind(m);
    forall k | k in e ensures k in b && b[k] == e[k] {
      var j :| 0 <= j < |xs| && Gives(e, xs[j], k);
      KeyIn(xs[j], m);
      KeyOf(xs[j]);
      BehindHas(m, xs[j].e);
    }
    forall k | k in b ensures k in e {
      NamedFrom(m, k);
      assert k[1..] in Keys(xs);
      var x :| x in xs && Key(x) == k[1..];
      var j :| 0 <= j < |xs| && xs[j] == x;
      KeyOf(x);
    }
  }

  // What is printed without sections comes back with a colon in front of every key
  // exactly if every entry is in normal form.
  lemma FlatDumpThenLoad(keys: Slots, vals: Slots, hashes: seq<nat>, hashOf: string -> nat, m: Entries)
    requires Dictionary.Represents(keys, vals, hashes, hashOf, m) && Sections(keys) == []
    ensures Load(Text(DumpLines(keys, vals))) == Some(Behind(m)) <==> FlatFormed(m)
  {
    hide Text, Load, Run, Heads, Colons, Flat, Brackets, Bracketed, Sections, ReadFrom, Tidy, OnlyFirstEmpty;
    hide FlatFormed, IniWithin.Without, FlatOneLine, DumpItems, DumpLines, Lines, Solid, Line, Short, Fits, IsRead;
    hide ReadAs, Behind;
    var lines, xs := DumpLines(keys, vals), DumpItems(keys, vals);
    FlatFacts(keys, vals, hashes, hashOf, m);
    if Load(Text(lines)) == Some(Behind(m)) {
      IniWithin.LoadedHasNoBreak(Text(lines));
      BehindCounts(xs, m);
      Straight(lines, xs, m, Behind(m));
      BehindTidy(xs, m);
      ReadRun(xs, |xs|);
      ComesBackFormed(xs, m);
    }
    if FlatFormed(m) {
      FormedTidy(xs, m);
      AllFit(lines, xs);
      ReadRun(xs, |xs|);
      SectionRun(xs, |xs|);
      FormedComesBack(xs, m, Run(xs, |xs|).entries);
    }
  }
}
