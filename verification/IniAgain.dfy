// Printing a dictionary, loading the text and printing again prints the same text.

module IniAgain {
  import opened Bytes
  import opened IniLine
  import opened IniEntry
  import opened IniLoad
  import opened IniOrder
  import opened IniDump
  import opened IniRoundTrip
  import opened IniSeen
  import opened IniItems
  import opened IniRun
  import opened IniExact
  import opened IniSections
  import Dictionary

  // ---------------------------------------------------------------------------
  // The keys that the printed lines store
  // ---------------------------------------------------------------------------

  function Places(xs: seq<Item>): (r: seq<string>)
    ensures |r| == |xs| && forall i :: 0 <= i < |xs| ==> r[i] == Place(xs[i])
  {
    if xs == [] then [] else [Place(xs[0])] + Places(xs[1..])
  }

  // Trimming makes no difference to the keys, nor do empty lines.
  lemma {:induction false} KeysTrimmed(section: string, lines: seq<string>)
    ensures StoredKeys(section, TrimAll(lines)) == StoredKeys(section, lines)
    decreases lines
  {
    hide Classify, StripRight;
    if lines != [] {
      SameKind(lines[0], section);
      assert TrimAll(lines)[1..] == TrimAll(lines[1..]);
      KeysTrimmed(SectionAfter(lines[0], section), lines[1..]);
    }
  }

  lemma {:induction false} KeysSolid(section: string, lines: seq<string>)
    ensures StoredKeys(section, Solid(lines)) == StoredKeys(section, lines)
    decreases lines
  {
    hide Stored, SectionAfter, Solid;
    if lines == [] {
      NothingSolid();
    } else {
      var l, more := lines[0], lines[1..];
      assert lines == [l] + more;
      SolidHead(l, more);
      if l == "" {
        BlankStores(section);
        KeysSolid(section, more);
        NilLeft(StoredKeys(section, more));
      } else {
        KeysSolid(SectionAfter(l, section), more);
        assert ([l] + Solid(more))[1..] == Solid(more);
      }
    }
  }

  lemma BlankStores(section: string)
    ensures Stored("", section) == None && SectionAfter("", section) == section
  {
    StripTrimmed("");
  }

  // A line that can carry its item, behind a line of the given section.
  predicate Carries(x: Item, section: string) {
    if x.Header? then NameOk(x.sec) || x.sec == section == ""
    else Sec(x) == section && LineOk(x.e, Pad(x), x.v)
  }

  lemma LineStores(x: Item, section: string)
    requires Carries(x, section) && ']' !in section
    ensures Stored(Line(x), section) == Some(Place(x)) && SectionAfter(Line(x), section) == Sec(x) && ']' !in Sec(x)
  {
    hide Classify, LineOk, Strip, Lower, Printed;
    if x.Header? {
      StripTrimmed("");
      HeaderReadsBack(x.sec, section);
      NameHas(x.sec);
    } else {
      OkReads(x.e, Pad(x), x.v, section);
    }
  }

  lemma OkReads(e: string, pad: nat, v: string, section: string)
    requires LineOk(e, pad, v)
    ensures Classify(Printed(e, pad, v), section) == Value(e, v)
  {
    hide Classify, KeyOk, ValueOk, Printed;
    EntryReadsBack(e, pad, v, section);
  }

  ghost predicate AllCarry(xs: seq<Item>, section: string) {
    forall i :: 0 <= i < |xs| ==> CarriesAt(xs, i, section)
  }

  predicate CarriesAt(xs: seq<Item>, i: nat, section: string)
    requires i < |xs|
  {
    Carries(xs[i], if i == 0 then section else Sec(xs[i - 1]))
  }

  lemma {:induction false} LinesStore(xs: seq<Item>, section: string)
    requires AllCarry(xs, section) && ']' !in section
    ensures StoredKeys(section, Lines(xs)) == Places(xs)
    decreases xs
  {
    hide Stored, SectionAfter, Carries, Place, Line;
    if xs != [] {
      assert CarriesAt(xs, 0, section);
      LineStores(xs[0], section);
      var more := xs[1..];
      forall i | 0 <= i < |more| ensures CarriesAt(more, i, Sec(xs[0])) {
        assert CarriesAt(xs, i + 1, section);
      }
      LinesStore(more, Sec(xs[0]));
      assert Lines(xs)[1..] == Lines(more);
    }
  }

  // ---------------------------------------------------------------------------
  // The table that is loaded
  // ---------------------------------------------------------------------------

  lemma AllCarried(keys: Slots, xs: seq<Item>, m: Entries)
    requires Sectioned(keys, xs, m) && Printable(keys, m)
    ensures AllCarry(xs, "") && forall x :: x in xs ==> Fits(Line(x))
  {
    hide Sections, LineOk, Fits, Sectioned, Printed, SectionOf, Key, WellFormed, Line;
    EmptyIsFirst(keys, xs, m);
    IsChained(keys, xs, m);
    forall i | 0 <= i < |xs| ensures CarriesAt(xs, i, "") {
      ItemCarries(keys, xs, m, xs[i]);
      assert ChainedAt(xs, i);
    }
    forall x | x in xs ensures Fits(Line(x)) {
      PrintableItem(keys, xs, m, x);
    }
  }

  lemma ItemCarries(keys: Slots, xs: seq<Item>, m: Entries, x: Item)
    requires Sectioned(keys, xs, m) && WellFormed(m) && x in xs
    ensures if x.Header? then NameOk(x.sec) || x.sec == "" else LineOk(x.e, Pad(x), x.v)
  {
    hide Sections, LineOk, Sectioned, SectionOf, Key;
    ItemFacts(keys, xs, m, x);
    assert KeyFits(m, Key(x));
  }

  lemma PlacesDiffer(keys: Slots, xs: seq<Item>, m: Entries)
    requires Sectioned(keys, xs, m)
    ensures AllDiffer(Places(xs))
  {
    hide Sectioned, Key, Place, SectionOf;
    IsChained(keys, xs, m);
    forall i | 0 <= i < |xs| ensures Place(xs[i]) == Key(xs[i]) {
      ItemFacts(keys, xs, m, xs[i]);
    }
  }

  // Loading the printed text lines the keys up in the order in which they are printed.
  lemma PrintedOrder(keys: Slots, vals: Slots, m: Entries)
    requires Holds(keys, vals, m) && Distinct(keys) && Sections(keys) != [] && Printable(keys, m)
    ensures LoadOrder(Text(DumpLines(keys, vals))) == Some(Places(DumpItems(keys, vals)))
  {
    hide Sectioned, Sections, Text, LogicalLines, DumpLines, DumpItems, Solid, Lines, Line, Fits, AllCarry;
    hide AddAll, StoredKeys, AllDiffer, Places, TrimAll;
    var xs, lines := DumpItems(keys, vals), DumpLines(keys, vals);
    SectionFacts(keys, vals, m);
    AllCarried(keys, xs, m);
    SolidHas(lines);
    forall l | l in lines ensures Fits(l) {
      if l != "" {
        var i :| 0 <= i < |xs| && Lines(xs)[i] == l;
        LinesAt(xs, i);
      }
      BlankApplies(Start());
    }
    ReadsLines(lines);
    KeysTrimmed("", lines);
    KeysSolid("", lines);
    LinesStore(xs, "");
    PlacesDiffer(keys, xs, m);
    FirstsOfDifferent([], Places(xs));
    NilLeft(Places(xs));
  }

  lemma LinesAt(xs: seq<Item>, i: nat)
    requires i < |xs|
    ensures |Lines(xs)| == |xs| && Lines(xs)[i] == Line(xs[i])
  {
  }

  // ---------------------------------------------------------------------------
  // The text of a table that is lined up
  // ---------------------------------------------------------------------------

  // The lines of the entries of a section.
  function LinesIn(xs: seq<Item>, sec: string): seq<string> {
    if xs == [] then []
    else (if xs[0].Entry? && xs[0].sec == sec then [Line(xs[0])] else []) + LinesIn(xs[1..], sec)
  }

  lemma {:induction false} LinesInConcat(a: seq<Item>, b: seq<Item>, sec: string)
    ensures LinesIn(a + b, sec) == LinesIn(a, sec) + LinesIn(b, sec)
  {
    hide Line;
    if a == [] {
      NilLeft(b);
      NilLeft(LinesIn(b, sec));
    } else {
      assert (a + b)[0] == a[0] && (a + b)[1..] == a[1..] + b;
      LinesInConcat(a[1..], b, sec);
      Assoc(if a[0].Entry? && a[0].sec == sec then [Line(a[0])] else [], LinesIn(a[1..], sec), LinesIn(b, sec));
    }
  }

  lemma LinesInOne(x: Item, sec: string)
    ensures LinesIn([x], sec) == if x.Entry? && x.sec == sec then [Line(x)] else []
  {
    assert [x][1..] == [];
  }

  lemma {:induction false} NoneIn(xs: seq<Item>, sec: string)
    requires forall x :: x in xs ==> !x.Entry? || x.sec != sec
    ensures LinesIn(xs, sec) == []
  {
    if xs != [] {
      assert xs[0] in xs;
      NoneIn(xs[1..], sec);
    }
  }

  lemma {:induction false} EntriesIn(keys: Slots, vals: Slots, sec: string, n: nat)
    requires n <= |keys| == |vals|
    ensures LinesIn(EntryItems(keys, vals, sec, n), sec) == EntryLines(keys, vals, sec, n)
    ensures forall x :: x in EntryItems(keys, vals, sec, n) ==> x.Entry? && x.sec == sec
  {
    hide Line, EntryLine;
    if n > 0 {
      EntriesIn(keys, vals, sec, n - 1);
      var before := EntryItems(keys, vals, sec, n - 1);
      if BelongsTo(keys[n - 1], sec) {
        var x := Entry(sec, keys[n - 1].value[|sec| + 1..], Shown(vals[n - 1]));
        LinesInConcat(before, [x], sec);
        LinesInOne(x, sec);
        LineOf(x);
      } else {
        NilLeft(before);
        NilLeft(EntryLines(keys, vals, sec, n - 1));
      }
    }
  }

  // Among the items of the first n sections, the entries of one are those of its lines.
  lemma {:induction false} SectionIn(keys: Slots, vals: Slots, n: nat, j: nat)
    requires |keys| == |vals| && Distinct(keys) && j < n <= |Sections(keys)|
    ensures LinesIn(SectionItems(keys, vals, n), Sections(keys)[j]) ==
            EntryLines(keys, vals, Sections(keys)[j], |keys|)
  {
    hide Sections, LinesIn, EntryItems, EntryLines, Distinct;
    var sec, last := Sections(keys)[j], Sections(keys)[n - 1];
    var before, more := SectionItems(keys, vals, n - 1), EntryItems(keys, vals, last, |keys|);
    LinesInConcat(before, [Header(last)] + more, sec);
    LinesInConcat([Header(last)], more, sec);
    LinesInOne(Header(last), sec);
    EntriesIn(keys, vals, last, |keys|);
    SectionsDiffer(keys);
    if j == n - 1 {
      OtherSections(keys, vals, n - 1, sec);
      NoneIn(before, sec);
    } else {
      SectionIn(keys, vals, n - 1, j);
      NoneIn(more, sec);
    }
    NilLeft(LinesIn(more, sec));
    NilLeft(LinesIn(before, sec));
  }

  lemma {:induction false} OtherSections(keys: Slots, vals: Slots, n: nat, sec: string)
    requires |keys| == |vals| && n <= |Sections(keys)| && sec !in Sections(keys)[..n]
    ensures forall x :: x in SectionItems(keys, vals, n) ==> !x.Bare? && x.sec != sec
  {
    hide Sections, EntryItems;
    if n > 0 {
      EntriesIn(keys, vals, Sections(keys)[n - 1], |keys|);
      assert Sections(keys)[n - 1] in Sections(keys)[..n];
      assert forall s :: s in Sections(keys)[..n - 1] ==> s in Sections(keys)[..n];
      OtherSections(keys, vals, n - 1, sec);
    }
  }

  // The names of the headers are the sections.
  lemma {:induction false} HeadersAre(keys: Slots, vals: Slots, n: nat)
    requires |keys| == |vals| && n <= |Sections(keys)| && forall s :: s in Sections(keys) ==> ':' !in s
    ensures NoColons(Places(SectionItems(keys, vals, n))) == Sections(keys)[..n]
  {
    hide Sections, NoColons, EntryItems, Places;
    if n == 0 {
      NothingThere();
      PlacesNone();
    } else {
      var sec := Sections(keys)[n - 1];
      HeadersAre(keys, vals, n - 1);
      EntriesIn(keys, vals, sec, |keys|);
      OneHeader(SectionItems(keys, vals, n - 1), sec, EntryItems(keys, vals, sec, |keys|));
      assert Sections(keys)[..n] == Sections(keys)[..n - 1] + [sec];
    }
  }

  lemma PlacesNone()
    ensures Places([]) == []
  {
  }

  lemma OneHeader(before: seq<Item>, sec: string, more: seq<Item>)
    requires ':' !in sec && forall x :: x in more ==> x.Entry?
    ensures NoColons(Places(before + ([Header(sec)] + more))) == NoColons(Places(before)) + [sec]
  {
    hide NoColons, Places, Place;
    PlacesConcat(before, [Header(sec)] + more);
    PlacesConcat([Header(sec)], more);
    PlacesOne(Header(sec));
    NoColonsConcat(Places(before), [sec] + Places(more));
    NoColonsConcat([sec], Places(more));
    NoColonsOne(sec);
    NoHeadersIn(more);
    assert [sec] + [] == [sec];
  }

  lemma {:induction false} PlacesConcat(a: seq<Item>, b: seq<Item>)
    ensures Places(a + b) == Places(a) + Places(b)
  {
    hide Place;
    assert |a + b| == |a| + |b|;
  }

  lemma PlacesOne(x: Item)
    ensures Places([x]) == [Place(x)] && (x.Header? ==> Place(x) == x.sec)
  {
  }

  lemma {:induction false} NoHeadersIn(xs: seq<Item>)
    requires forall x :: x in xs ==> x.Entry?
    ensures NoColons(Places(xs)) == []
  {
    if xs != [] {
      assert xs[0] in xs;
      HasColon(xs[0].sec, xs[0].e);
      NoHeadersIn(xs[1..]);
      assert Places(xs)[1..] == Places(xs[1..]);
    }
  }

  // A table whose slots are those of items in order: `vals` are their values.
  ghost predicate Slotted(keys: Slots, vals: Slots, xs: seq<Item>) {
    && |keys| == |vals| && Lined(keys, Places(xs))
    && forall i :: 0 <= i < |xs| ==> SlotOf(vals[i], xs[i])
  }

  predicate SlotOf(v: Option<string>, x: Item) {
    !x.Bare? && ':' !in x.sec && (x.Entry? ==> Shown(v) == x.v)
  }

  lemma SlotAt(keys: Slots, vals: Slots, xs: seq<Item>, i: nat)
    requires Slotted(keys, vals, xs) && i < |keys|
    ensures |xs| <= |keys| == |vals|
    ensures if i < |xs| then keys[i] == Some(Place(xs[i])) && SlotOf(vals[i], xs[i]) else keys[i] == None
  {
    hide Place;
  }

  lemma Belongs(x: Item, v: Option<string>, sec: string)
    requires SlotOf(v, x) && ':' !in sec
    ensures BelongsTo(Some(Place(x)), sec) <==> x.Entry? && x.sec == sec
    ensures x.Entry? && x.sec == sec ==>
              |sec| + 1 <= |Place(x)| && Place(x)[|sec| + 1..] == x.e && Shown(v) == x.v
              && Line(x) == EntryLine(x.e, Shown(v))
  {
    hide EntryLine, Printed, SectionOf;
    KeyOf(x);
    LineOf(x);
    if BelongsTo(Some(Place(x)), sec) {
      KeyParts(Place(x), sec);
    }
  }

  lemma EntryLinesStep(keys: Slots, vals: Slots, sec: string, n: nat)
    requires n < |keys| == |vals|
    ensures EntryLines(keys, vals, sec, n + 1) ==
            EntryLines(keys, vals, sec, n) +
            if BelongsTo(keys[n], sec) then [EntryLine(keys[n].value[|sec| + 1..], Shown(vals[n]))] else []
  {
    hide EntryLine;
  }

  lemma LinesInStep(xs: seq<Item>, sec: string, n: nat)
    requires n < |xs|
    ensures LinesIn(xs[..n + 1], sec) ==
            LinesIn(xs[..n], sec) + if xs[n].Entry? && xs[n].sec == sec then [Line(xs[n])] else []
  {
    hide LinesIn, Line;
    assert xs[..n + 1] == xs[..n] + [xs[n]];
    LinesInConcat(xs[..n], [xs[n]], sec);
    LinesInOne(xs[n], sec);
  }

  lemma {:induction false} SlottedEntries(keys: Slots, vals: Slots, xs: seq<Item>, sec: string, i: nat)
    requires Slotted(keys, vals, xs) && ':' !in sec && i <= |keys|
    ensures |keys| == |vals| && EntryLines(keys, vals, sec, i) == LinesIn(xs[..Min(i, |xs|)], sec)
  {
    hide BelongsTo, Place, Line, EntryLine, EntryLines, LinesIn, Slotted, SlotOf;
    SlotsSame(keys, vals, xs);
    if i == 0 {
      assert xs[..0] == [];
      NoneIn([], sec);
      NoEntryLines(keys, vals, sec);
    } else {
      SlottedEntries(keys, vals, xs, sec, i - 1);
      SlotAt(keys, vals, xs, i - 1);
      EntryLinesStep(keys, vals, sec, i - 1);
      if i <= |xs| {
        Belongs(xs[i - 1], vals[i - 1], sec);
        LinesInStep(xs, sec, i - 1);
      } else {
        NotThere(sec);
        NilLeft(EntryLines(keys, vals, sec, i - 1));
      }
    }
  }

  lemma NoEntryLines(keys: Slots, vals: Slots, sec: string)
    requires |keys| == |vals|
    ensures EntryLines(keys, vals, sec, 0) == []
  {
  }

  lemma SlotsSame(keys: Slots, vals: Slots, xs: seq<Item>)
    requires Slotted(keys, vals, xs)
    ensures |keys| == |vals| >= |xs|
  {
  }

  lemma NotThere(sec: string)
    ensures !BelongsTo(None, sec)
  {
  }

  lemma {:induction false} SameSections(keys: Slots, vals: Slots, keys': Slots, vals': Slots, n: nat)
    requires |keys| == |vals| && |keys'| == |vals'| && Sections(keys) == Sections(keys') && n <= |Sections(keys)|
    requires forall j :: 0 <= j < n ==>
               EntryLines(keys, vals, Sections(keys)[j], |keys|) == EntryLines(keys', vals', Sections(keys)[j], |keys'|)
    ensures SectionLines(keys, vals, n) == SectionLines(keys', vals', n)
  {
    hide Sections, EntryLines;
    if n > 0 {
      SameSections(keys, vals, keys', vals', n - 1);
    }
  }

  // A table with the printed items in its slots prints the same lines.
  lemma PrintsTheSame(keys: Slots, vals: Slots, keys': Slots, vals': Slots, m: Entries)
    requires Holds(keys, vals, m) && Distinct(keys) && Sections(keys) != []
    requires Slotted(keys', vals', DumpItems(keys, vals))
    ensures |keys'| == |vals'| && DumpLines(keys', vals') == DumpLines(keys, vals)
  {
    hide Sections, Slotted, LinesIn, Places, NoColons, SectionItems, EntryLines, Distinct;
    var xs, secs := DumpItems(keys, vals), Sections(keys);
    SlotsSame(keys', vals', xs);
    SectionsIn(keys, vals, m);
    HeadersAre(keys, vals, |secs|);
    DropAll(secs);
    SlottedLined(keys', vals', xs);
    SectionsLined(keys', Places(xs), |keys'|);
    DropAll(keys');
    DropAll(Places(xs));
    DropAll(xs);
    forall j | 0 <= j < |secs|
      ensures EntryLines(keys, vals, secs[j], |keys|) == EntryLines(keys', vals', secs[j], |keys'|)
    {
      SectionIn(keys, vals, |secs|, j);
      SlottedEntries(keys', vals', xs, secs[j], |keys'|);
    }
    SameSections(keys, vals, keys', vals', |secs|);
  }

  lemma SlottedLined(keys: Slots, vals: Slots, xs: seq<Item>)
    requires Slotted(keys, vals, xs)
    ensures Lined(keys, Places(xs)) && |Places(xs)| == |xs| <= |keys|
  {
  }

  // ---------------------------------------------------------------------------
  // Print, load, print
  // ---------------------------------------------------------------------------

  // The loaded table has the printed items in its slots.
  lemma LoadedSlots(keys: Slots, vals: Slots, m: Entries, keys': Slots, vals': Slots, hashes': seq<nat>,
                    hashOf: string -> nat)
    requires Holds(keys, vals, m) && Distinct(keys) && Sections(keys) != [] && Printable(keys, m)
    requires Dictionary.Represents(keys', vals', hashes', hashOf, Norm(m))
    requires Lined(keys', Places(DumpItems(keys, vals)))
    ensures Slotted(keys', vals', DumpItems(keys, vals))
  {
    hide Sections, DumpItems, Sectioned, Place, SectionOf, Key, Lines, Solid, DumpLines, Distinct;
    var xs := DumpItems(keys, vals);
    SectionFacts(keys, vals, m);
    SlotFacts(keys', vals', hashes', hashOf, Norm(m));
    forall i | 0 <= i < |xs| ensures SlotOf(vals'[i], xs[i]) {
      ItemFacts(keys, xs, m, xs[i]);
      assert keys'[i] == Some(Place(xs[i]));
      assert Norm(m)[Place(xs[i])] == vals'[i];
    }
  }

  // Printing, loading and printing again.
  method PrintAgain(d: Dictionary.Table) returns (text: string, e: Dictionary.Table?, again: string)
    requires d.Valid()
    ensures |d.key[..]| == |d.val[..]| && text == Text(DumpLines(d.key[..], d.val[..]))
    ensures Printable(d.key[..], d.M) ==> e != null && again == text
  {
    hide Printable, DumpLines, Load, Lined, LoadOrder, Text, d.Valid, Sections;
    ghost var keys, vals, m := d.key[..], d.val[..], d.M;
    Contents(d);
    ghost var hashes := d.hash[..];
    text := DumpIni(d);
    DumpThenLoad(keys, vals, hashes, d.hashOf, m);
    e := IniparserLoad(text, d.hashOf);
    again := "";
    if e != null {
      again := DumpIni(e);
      Contents(e);
      ghost var p := Printable(keys, m);
      if p {
        SamePrint(keys, vals, hashes, d.hashOf, m, e.key[..], e.val[..], e.hash[..], e.hashOf);
      }
    }
  }

  lemma SamePrint(keys: Slots, vals: Slots, hashes: seq<nat>, hashOf: string -> nat, m: Entries,
                  keys': Slots, vals': Slots, hashes': seq<nat>, hashOf': string -> nat)
    requires Dictionary.Represents(keys, vals, hashes, hashOf, m) && Printable(keys, m)
    requires Dictionary.Represents(keys', vals', hashes', hashOf', Norm(m))
    requires var order := LoadOrder(Text(DumpLines(keys, vals))); order.Some? && Lined(keys', order.value)
    ensures |keys'| == |vals'| && DumpLines(keys', vals') == DumpLines(keys, vals)
  {
    hide Dictionary.Represents, Sections, DumpLines, DumpItems, Lined, LoadOrder, Text, Printable, Norm, Slotted;
    SlotFacts(keys, vals, hashes, hashOf, m);
    if Sections(keys) == [] {
      NothingPrints(keys, vals, hashes, hashOf, m, keys', vals', hashes', hashOf');
    } else {
      PrintedOrder(keys, vals, m);
      LoadedSlots(keys, vals, m, keys', vals', hashes', hashOf');
      PrintsTheSame(keys, vals, keys', vals', m);
    }
  }

  lemma NothingPrints(keys: Slots, vals: Slots, hashes: seq<nat>, hashOf: string -> nat, m: Entries,
                      keys': Slots, vals': Slots, hashes': seq<nat>, hashOf': string -> nat)
    requires Dictionary.Represents(keys, vals, hashes, hashOf, m) && Printable(keys, m) && Sections(keys) == []
    requires Dictionary.Represents(keys', vals', hashes', hashOf', Norm(m))
    ensures |keys'| == |vals'| && DumpLines(keys', vals') == DumpLines(keys, vals)
  {
    hide Sections, KeyFits;
    SlotFacts(keys, vals, hashes, hashOf, m);
    OnlyEmpty(keys, m);
    EmptyPrints(keys, vals);
    EmptyPrints(keys', vals');
  }

  lemma EmptyPrints(keys: Slots, vals: Slots)
    requires |keys| == |vals| && forall i :: 0 <= i < |keys| ==> keys[i].None?
    ensures DumpLines(keys, vals) == []
  {
    NoneFlat(keys, vals, |keys|);
    NoneNamed(keys);
  }

  lemma {:induction false} NoneFlat(keys: Slots, vals: Slots, n: nat)
    requires n <= |keys| == |vals| && forall i :: 0 <= i < n ==> keys[i].None?
    ensures FlatLines(keys, vals, n) == []
  {
    if n > 0 {
      NoneFlat(keys, vals, n - 1);
    }
  }

  lemma {:induction false} NoneNamed(keys: Slots)
    requires forall i :: 0 <= i < |keys| ==> keys[i].None?
    ensures Sections(keys) == []
  {
    if keys != [] {
      NoneNamed(keys[..|keys| - 1]);
    }
  }
}
