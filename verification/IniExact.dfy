// Printing a dictionary and loading the text gives the dictionary back exactly if it
// is well formed.

module IniExact {
  import opened Bytes
  import opened IniLine
  import opened IniEntry
  import opened IniLoad
  import opened IniDump
  import opened IniRoundTrip
  import opened IniSeen
  import opened IniItems
  import opened IniRun
  import IniFlat
  import IniWithin
  import Dictionary

  // The items of a dictionary with sections.
  ghost predicate Sectioned(keys: Slots, xs: seq<Item>, m: Entries) {
    var secs := Sections(keys);
    && Different(xs) && Chained(xs) && (forall x :: x in xs ==> Of(x, m) && !x.Bare? && x.sec in secs)
    && secs != [] && xs != [] && xs[0] == Header(secs[0]) && (forall s :: s in secs ==> Header(s) in xs && s in m)
  }

  lemma SectionFacts(keys: Slots, vals: Slots, m: Entries)
    requires Holds(keys, vals, m) && Distinct(keys) && Sections(keys) != []
    ensures Sectioned(keys, DumpItems(keys, vals), m)
    ensures Solid(DumpLines(keys, vals)) == Lines(DumpItems(keys, vals))
  {
    hide Of, Key, Sections, Lines, Solid, DumpLines, DumpItems, Different, Chained;
    DumpSolid(keys, vals);
    DumpItemsOf(keys, vals, m);
    SectionsIn(keys, vals, m);
  }

  // An item has its own key of the dictionary, and the section of the key.
  lemma ItemFacts(keys: Slots, xs: seq<Item>, m: Entries, x: Item)
    requires Sectioned(keys, xs, m) && x in xs
    ensures !x.Bare? && Sec(x) == x.sec && ':' !in x.sec && x.sec in m
    ensures Key(x) == Place(x) && Key(x) in m && SectionOf(Key(x)) == x.sec
    ensures if x.Header? then Key(x) == x.sec && ':' !in Key(x)
            else ':' in Key(x) && |x.sec| < |Key(x)| && Key(x)[|x.sec| + 1..] == x.e && x.v == Shown(m[Key(x)])
  {
    hide Sections;
    KeyOf(x);
    if x.Entry? {
      assert (x.sec + ":" + x.e)[|x.sec| + 1..] == x.e;
    }
  }

  // An empty name comes first, if only the first section may have one.
  lemma EmptyIsFirst(keys: Slots, xs: seq<Item>, m: Entries)
    requires Sectioned(keys, xs, m) && forall j :: 0 < j < |Sections(keys)| ==> Sections(keys)[j] != ""
    ensures OnlyFirstEmpty(xs)
  {
    hide Sections, Of, Key;
    forall j | 0 < j < |xs| && xs[j].Header? ensures xs[j].sec != "" {
      assert xs[j] in xs && xs[0] in xs;
      ItemFacts(keys, xs, m, xs[j]);
      ItemFacts(keys, xs, m, xs[0]);
    }
  }

  // ---------------------------------------------------------------------------
  // What is well formed comes back
  // ---------------------------------------------------------------------------

  lemma PrintableItem(keys: Slots, xs: seq<Item>, m: Entries, x: Item)
    requires Sectioned(keys, xs, m) && WellFormed(m) && x in xs
    ensures TidyItem(x) && IsRead(x) && ReadAs(x) == Norm(m)[Key(x)] && Fits(Line(x))
  {
    hide Sections, LineOk, Fits, Sectioned, Heads, Printed, Cut, ReadValue, SectionOf, Key;
    ItemFacts(keys, xs, m, x);
    assert KeyFits(m, Key(x));
    if x.Header? {
      HeaderFits(x.sec);
      NameHas(x.sec);
    } else {
      OkIsTidy(x);
    }
  }

  // Every key is printed under some section.
  lemma AllPrinted(keys: Slots, vals: Slots, m: Entries)
    requires Holds(keys, vals, m) && Distinct(keys) && Covers(keys, m) && WellFormed(m) && Sections(keys) != []
    ensures forall k :: k in m ==> k in Keys(DumpItems(keys, vals))
  {
    hide Sections, EntryOk, SectionOf, DumpItems, Keys, Distinct;
    SectionsNamed(keys);
    DumpItemsOf(keys, vals, m);
    forall k | k in m ensures k in Keys(DumpItems(keys, vals)) {
      WithColon(k);
      assert KeyFits(m, k);
      var i :| 0 <= i < |keys| && keys[i] == Some(k);
      var sec := if ':' in k then SectionOf(k) else k;
      var s :| 0 <= s < |keys| && keys[s] == Some(sec);
      assert NamesSection(keys[s]);
      KeyOf(Header(sec));
      KeysHave(DumpItems(keys, vals), Header(sec));
    }
  }

  lemma KeysHave(xs: seq<Item>, x: Item)
    ensures x in xs ==> Key(x) in Keys(xs)
  {
  }

  lemma WithColon(k: string)
    ensures ':' !in SectionOf(k)
    ensures ':' in k ==> SectionOf(k) + ":" <= k
  {
    UptoFacts(k, {':'});
  }

  lemma NormIsRead(keys: Slots, xs: seq<Item>, m: Entries, e: Entries)
    requires Sectioned(keys, xs, m) && ReadFrom(e, xs, |xs|) && (forall k :: k in m ==> k in Keys(xs))
    requires forall x :: x in xs ==> Key(x) in m && IsRead(x) && ReadAs(x) == Norm(m)[Key(x)]
    ensures e == Norm(m)
  {
    hide Sectioned, Norm, Keys, ReadFrom, Gives, IsRead, ReadAs, Key;
    NormKeys(m);
    forall k | k in e ensures k in m && e[k] == Norm(m)[k] {
      OnlyRead(keys, xs, m, e, k);
    }
    forall k | k in m ensures k in e {
      AlsoRead(keys, xs, m, e, k);
    }
  }

  lemma OnlyRead(keys: Slots, xs: seq<Item>, m: Entries, e: Entries, k: string)
    requires Sectioned(keys, xs, m) && ReadFrom(e, xs, |xs|) && k in e
    requires forall x :: x in xs ==> Key(x) in m && IsRead(x) && ReadAs(x) == Norm(m)[Key(x)]
    ensures k in m && e[k] == Norm(m)[k]
  {
    hide Sectioned, Norm, IsRead, ReadAs, Key, Place;
    var j :| 0 <= j < |xs| && Gives(e, xs[j], k);
    ItemFacts(keys, xs, m, xs[j]);
  }

  lemma AlsoRead(keys: Slots, xs: seq<Item>, m: Entries, e: Entries, k: string)
    requires Sectioned(keys, xs, m) && ReadFrom(e, xs, |xs|) && k in Keys(xs)
    requires forall x :: x in xs ==> IsRead(x)
    ensures k in e
  {
    hide Sectioned, IsRead, Key, Place, Gives;
    var x :| x in xs && Key(x) == k;
    var j :| 0 <= j < |xs| && xs[j] == x;
    ItemFacts(keys, xs, m, x);
  }

  lemma NormKeys(m: Entries)
    ensures Norm(m).Keys == m.Keys
  {
  }

  // A well-formed dictionary comes back.
  lemma ComesBack(keys: Slots, vals: Slots, hashes: seq<nat>, hashOf: string -> nat, m: Entries)
    requires Dictionary.Represents(keys, vals, hashes, hashOf, m) && Printable(keys, m)
    ensures Load(Text(DumpLines(keys, vals))) == Some(Norm(m))
  {
    hide Load, Text, Sections, DumpLines, DumpItems, Run, ReadFrom, Sectioned, Norm, TidyItem, IsRead, ReadAs, Fits;
    hide Line, Dictionary.Represents, WellFormed, Solid, Lines, OnlyFirstEmpty, Key, Keys;
    SlotFacts(keys, vals, hashes, hashOf, m);
    if Sections(keys) == [] {
      OnlyEmpty(keys, m);
      NormKeys(m);
      IniFlat.FlatIsLost(keys, vals, hashes, hashOf, m);
    } else {
      var xs, lines := DumpItems(keys, vals), DumpLines(keys, vals);
      SectionFacts(keys, vals, m);
      NormKeys(m);
      forall x | x in xs
        ensures TidyItem(x) && Key(x) in m && IsRead(x) && ReadAs(x) == Norm(m)[Key(x)] && Fits(Line(x))
      {
        ItemFacts(keys, xs, m, x);
        PrintableItem(keys, xs, m, x);
      }
      EmptyIsFirst(keys, xs, m);
      IsChained(keys, xs, m);
      AllFit(lines, xs);
      SectionRun(xs, |xs|);
      ReadRun(xs, |xs|);
      AllPrinted(keys, vals, m);
      NormIsRead(keys, xs, m, Run(xs, |xs|).entries);
    }
  }

  lemma IsChained(keys: Slots, xs: seq<Item>, m: Entries)
    requires Sectioned(keys, xs, m)
    ensures Chained(xs) && Different(xs) && forall x :: x in xs ==> Of(x, m)
  {
  }

  // Without sections only the empty dictionary is well formed.
  lemma OnlyEmpty(keys: Slots, m: Entries)
    requires Sections(keys) == [] && Covers(keys, m) && WellFormed(m)
    ensures m == map[]
  {
    hide Sections, EntryOk, SectionOf;
    SectionsNamed(keys);
    forall k | k in m ensures ':' in k && SectionOf(k) in m {
      var i :| 0 <= i < |keys| && keys[i] == Some(k);
      assert !NamesSection(keys[i]);
      assert KeyFits(m, k);
    }
    forall k ensures k !in m {
      WithColon(k);
    }
  }

  // ---------------------------------------------------------------------------
  // What comes back is well formed
  // ---------------------------------------------------------------------------

  // The same keys, and the same values of entries but for null and empty ones.
  ghost predicate Agrees(r: Entries, m: Entries) {
    r.Keys == m.Keys && forall k :: k in m && ':' in k ==> Shown(r[k]) == Shown(m[k])
  }

  ghost predicate OneLine(m: Entries) {
    forall k :: k in m ==> '\n' !in k && (':' in k ==> '\n' !in Shown(m[k]))
  }

  lemma AgreesOneLine(r: Entries, m: Entries)
    requires Agrees(r, m) && IniWithin.Without(r, '\n')
    ensures OneLine(m) && |r| == |m|
  {
    assert |r.Keys| == |r| && |m.Keys| == |m|;
  }

  lemma ItemBreak(keys: Slots, xs: seq<Item>, m: Entries, x: Item)
    requires Sectioned(keys, xs, m) && x in xs && OneLine(m)
    ensures '\n' !in Line(x)
  {
    hide Sectioned, Key, SectionOf, Printed;
    ItemFacts(keys, xs, m, x);
    if x.Entry? {
      assert forall c :: c in x.e ==> c in Key(x);
      PrintedHas(x.e, Pad(x), x.v);
    }
  }

  lemma AgreesBrackets(keys: Slots, xs: seq<Item>, m: Entries, r: Entries)
    requires Sectioned(keys, xs, m) && Agrees(r, m)
    ensures |Brackets(r)| >= |Bracketed(xs)|
  {
    hide Sectioned, Key, SectionOf, Bracket;
    forall x | x in xs && HasBracket(x) ensures Key(x) in Brackets(r) {
      ItemFacts(keys, xs, m, x);
      SameBracket(Key(x), Some(x.v), r[Key(x)]);
    }
    Subset(Bracketed(xs), Brackets(r));
  }

  // So the items of a dictionary that comes back are in normal form.
  lemma ItemsTidy(keys: Slots, xs: seq<Item>, m: Entries, r: Entries)
    requires Sectioned(keys, xs, m) && Agrees(r, m) && Formed(r) && forall x :: x in xs && !x.Header? ==> !Heads(x)
    ensures Tidy(xs)
  {
    hide Name, Normal, Trimmed, SectionOf, Heads, Key, Sectioned;
    IsChained(keys, xs, m);
    forall x | x in xs ensures TidyItem(x) {
      ItemFacts(keys, xs, m, x);
      assert FormedAt(r, Key(x));
    }
  }

  // Only the first section has an empty name.
  lemma EmptyFirst(keys: Slots, xs: seq<Item>, m: Entries, r: Entries)
    requires Sectioned(keys, xs, m) && Distinct(keys) && Agrees(r, m) && Tidy(xs) && Run(xs, |xs|).entries == r
    ensures forall j :: 0 < j < |Sections(keys)| ==> Sections(keys)[j] != ""
  {
    hide Run, Sections, Tidy, Key, Distinct, Of, Different, Chained;
    SectionsDiffer(keys);
    forall j | 0 < j < |Sections(keys)| ensures Sections(keys)[j] != "" {
      if Sections(keys)[0] != "" {
        EmptyIsLost(xs, |xs|);
      }
      assert Sections(keys)[j] in m;
    }
  }

  lemma KeyIsFit(keys: Slots, xs: seq<Item>, m: Entries, r: Entries, k: string)
    requires Sectioned(keys, xs, m) && Agrees(r, m) && Tidy(xs) && ReadFrom(r, xs, |xs|) && k in m
    requires forall x :: x in xs ==> Short(Line(x))
    ensures KeyFits(m, k)
  {
    hide Sectioned, EntryOk, Key, Name, Line, SectionOf, TidyItem;
    var j :| 0 <= j < |xs| && Gives(r, xs[j], k);
    ItemFacts(keys, xs, m, xs[j]);
    ItemIsFit(m, r, xs[j], k);
  }

  lemma ItemIsFit(m: Entries, r: Entries, x: Item, k: string)
    requires Agrees(r, m) && k in m && TidyItem(x) && Gives(r, x, k) && Short(Line(x))
    requires !x.Bare? && x.sec in m && ':' !in x.sec && SectionOf(k) == x.sec
    requires if x.Header? then k == x.sec
             else ':' in k && |x.sec| < |k| && k[|x.sec| + 1..] == x.e && x.v == Shown(m[k])
    ensures KeyFits(m, k)
  {
    hide Name, Line, SectionOf, Short, LineOk, Heads, ReadValue, Cut, Normal, Trimmed;
    if x.Header? {
      HeaderIsFit(x);
      NameHas(x.sec);
    } else {
      ItemIsOk(x);
    }
  }

  lemma HeaderIsFit(x: Item)
    requires x.Header? && Short(Line(x))
    ensures '\n' !in x.sec && '\0' !in x.sec && |x.sec| + 2 < ASCIILINESZ - 1
  {
    assert forall c :: c in x.sec ==> c in "[" + x.sec + "]";
  }

  // A dictionary that comes back, but for null and empty values and the values of
  // sections, is well formed.
  lemma OnlyPrintable(keys: Slots, vals: Slots, hashes: seq<nat>, hashOf: string -> nat, m: Entries, r: Entries)
    requires Dictionary.Represents(keys, vals, hashes, hashOf, m) && Agrees(r, m)
    requires Load(Text(DumpLines(keys, vals))) == Some(r)
    ensures Printable(keys, m)
  {
    hide Text, Load, DumpLines, DumpItems, Line, Lines, Sections, Of, Key, Seen, Run, Agrees, TidyItem, Gives, ReadFrom;
    hide Dictionary.Represents, KeyFits, Sectioned, Solid, Short, Formed, Brackets, Bracketed, Heads, OneLine, Tidy;
    hide IniWithin.Without, Different, Chained, OnlyFirstEmpty;
    SlotFacts(keys, vals, hashes, hashOf, m);
    if Sections(keys) == [] {
      AgreesAlike(keys, m, r);
      IniFlat.FlatIsLost(keys, vals, hashes, hashOf, m);
    } else {
      var xs, lines := DumpItems(keys, vals), DumpLines(keys, vals);
      SectionFacts(keys, vals, m);
      IsChained(keys, xs, m);
      IniWithin.LoadedHasNoBreak(Text(lines));
      AgreesOneLine(r, m);
      ItemsFew(xs, m);
      forall x | x in xs ensures '\n' !in Line(x) && ':' !in Sec(x) {
        ItemFacts(keys, xs, m, x);
        ItemBreak(keys, xs, m, x);
      }
      var a := AllSeen(lines, xs, r);
      AgreesBrackets(keys, xs, m, r);
      NoHeads(xs, r);
      FormedRun(xs, |xs|);
      ItemsTidy(keys, xs, m, r);
      EmptyFirst(keys, xs, m, r);
      EmptyIsFirst(keys, xs, m);
      ReadRun(xs, |xs|);
      forall x | x in xs ensures Short(Line(x)) {
        SeenShort(a, xs, x);
      }
      SameKeys(r, m);
      forall k | k in m ensures KeyFits(m, k) {
        KeyIsFit(keys, xs, m, r, k);
      }
    }
  }

  lemma SameKeys(r: Entries, m: Entries)
    requires Agrees(r, m)
    ensures forall k :: k in m <==> k in r
  {
  }

  lemma AgreesAlike(keys: Slots, m: Entries, r: Entries)
    requires Sections(keys) == [] && Covers(keys, m) && Agrees(r, m)
    ensures IniFlat.Alike(r, m)
  {
    SectionsNamed(keys);
  }

  // ---------------------------------------------------------------------------
  // The round trip
  // ---------------------------------------------------------------------------

  lemma NormAgrees(m: Entries)
    ensures Agrees(Norm(m), m) && Agrees(m, m)
  {
  }

  // What is printed comes back, but for what print does not show, exactly if the
  // dictionary is well formed; and it comes back as it was exactly if besides its
  // entries, and only they, have values.
  lemma DumpThenLoad(keys: Slots, vals: Slots, hashes: seq<nat>, hashOf: string -> nat, m: Entries)
    requires Dictionary.Represents(keys, vals, hashes, hashOf, m)
    ensures var r := Load(Text(DumpLines(keys, vals)));
            && (r == Some(Norm(m)) <==> Printable(keys, m))
            && (r.Some? && Agrees(r.value, m) <==> Printable(keys, m))
            && (r == Some(m) <==> Printable(keys, m) && forall k :: k in m ==> (m[k].Some? <==> ':' in k))
  {
    hide Load, Text, DumpLines, Printable, Dictionary.Represents, Agrees, Norm;
    SlotFacts(keys, vals, hashes, hashOf, m);
    var r := Load(Text(DumpLines(keys, vals)));
    NormAgrees(m);
    NormKeeps(m);
    if r.Some? && Agrees(r.value, m) {
      OnlyPrintable(keys, vals, hashes, hashOf, m, r.value);
    }
    if Printable(keys, m) {
      ComesBack(keys, vals, hashes, hashOf, m);
    }
  }

  // The same for the dictionary object: what is printed and loaded again.
  method Reload(d: Dictionary.Table) returns (e: Dictionary.Table?)
    requires d.Valid()
    ensures e != null ==> fresh(e) && e.Valid()
    ensures e != null && e.M == Norm(d.M) <==> Printable(d.key[..], d.M)
  {
    hide Printable, DumpLines, Load;
    var text := DumpIni(d);
    Contents(d);
    DumpThenLoad(d.key[..], d.val[..], d.hash[..], d.hashOf, d.M);
    e := IniparserLoad(text, d.hashOf);
  }

  lemma Contents(d: Dictionary.Table)
    requires d.Valid()
    ensures Dictionary.Represents(d.key[..], d.val[..], d.hash[..], d.hashOf, d.M)
  {
  }
}
