// The headers and entries that are printed for a dictionary, without the empty lines
// between them.

module IniItems {
  import opened Bytes
  import opened IniLine
  import opened IniEntry
  import opened IniLoad
  import opened IniDump
  import opened IniRoundTrip
  import opened IniSeen

  // Without sections, entries are printed bare: with their whole key, and not padded.
  datatype Item = Header(sec: string) | Entry(sec: string, e: string, v: string) | Bare(e: string, v: string)

  function Sec(x: Item): string {
    if x.Bare? then "" else x.sec
  }

  // The key that an item is printed for, and the one that it is read as.
  function Key(x: Item): string {
    match x
    case Header(sec) => sec
    case Entry(sec, e, _) => sec + ":" + e
    case Bare(e, _) => e
  }

  function Place(x: Item): string {
    if x.Header? then x.sec else Sec(x) + ":" + x.e
  }

  function Pad(x: Item): nat
    requires !x.Header?
  {
    if x.Bare? then 0 else Padding(x.e)
  }

  function Line(x: Item): string {
    if x.Header? then "[" + x.sec + "]" else Printed(x.e, Pad(x), x.v)
  }

  function Lines(xs: seq<Item>): (r: seq<string>)
    ensures |r| == |xs| && forall i :: 0 <= i < |xs| ==> r[i] == Line(xs[i])
  {
    if xs == [] then [] else [Line(xs[0])] + Lines(xs[1..])
  }

  function EntryItems(keys: Slots, vals: Slots, sec: string, n: nat): seq<Item>
    requires n <= |keys| == |vals|
  {
    if n == 0 then [] else
    EntryItems(keys, vals, sec, n - 1) +
    if BelongsTo(keys[n - 1], sec) then [Entry(sec, keys[n - 1].value[|sec| + 1..], Shown(vals[n - 1]))] else []
  }

  function SectionItems(keys: Slots, vals: Slots, n: nat): seq<Item>
    requires n <= |Sections(keys)| && |keys| == |vals|
  {
    if n == 0 then [] else
    var sec := Sections(keys)[n - 1];
    SectionItems(keys, vals, n - 1) + ([Header(sec)] + EntryItems(keys, vals, sec, |keys|))
  }

  function FlatItems(keys: Slots, vals: Slots, n: nat): seq<Item>
    requires n <= |keys| == |vals|
  {
    if n == 0 then [] else
    FlatItems(keys, vals, n - 1) + if keys[n - 1].Some? then [Bare(keys[n - 1].value, FlatValue(vals[n - 1]))] else []
  }

  function DumpItems(keys: Slots, vals: Slots): seq<Item>
    requires |keys| == |vals|
  {
    if Sections(keys) == [] then FlatItems(keys, vals, |keys|) else SectionItems(keys, vals, |Sections(keys)|)
  }

  // ---------------------------------------------------------------------------
  // They are the lines that are not empty
  // ---------------------------------------------------------------------------

  lemma {:induction false} LinesConcat(a: seq<Item>, b: seq<Item>)
    ensures Lines(a + b) == Lines(a) + Lines(b)
  {
    if a == [] {
      NilLeft(b);
      NilLeft(Lines(b));
    } else {
      assert (a + b)[0] == a[0] && (a + b)[1..] == a[1..] + b;
      LinesConcat(a[1..], b);
      Assoc([Line(a[0])], Lines(a[1..]), Lines(b));
    }
  }

  lemma SolidOne(l: string)
    ensures Solid([l]) == if l == "" then [] else [l]
  {
  }

  lemma LineOf(x: Item)
    ensures Lines([x]) == [Line(x)] && Line(x) != "" && Solid([Line(x)]) == [Line(x)]
    ensures x.Header? ==> Line(x) == "[" + x.sec + "]"
    ensures x.Entry? ==> Line(x) == EntryLine(x.e, x.v)
  {
    SolidOne(Line(x));
  }

  lemma NothingSolid()
    ensures Solid([]) == [] == Lines([])
  {
  }

  // One more line and its item.
  lemma SolidMore(lines: seq<string>, xs: seq<Item>, x: Item)
    requires Solid(lines) == Lines(xs)
    ensures Solid(lines + [Line(x)]) == Lines(xs + [x])
  {
    hide Line, Lines, Solid;
    LineOf(x);
    SolidConcat(lines, [Line(x)]);
    LinesConcat(xs, [x]);
  }

  lemma {:induction false} EntriesSolid(keys: Slots, vals: Slots, sec: string, n: nat)
    requires n <= |keys| == |vals|
    ensures Solid(EntryLines(keys, vals, sec, n)) == Lines(EntryItems(keys, vals, sec, n))
  {
    hide Line, Lines, Solid, EntryLine;
    if n == 0 {
      NothingSolid();
    } else {
      EntriesSolid(keys, vals, sec, n - 1);
      var before, xs := EntryLines(keys, vals, sec, n - 1), EntryItems(keys, vals, sec, n - 1);
      if BelongsTo(keys[n - 1], sec) {
        var x := Entry(sec, keys[n - 1].value[|sec| + 1..], Shown(vals[n - 1]));
        LineOf(x);
        SolidMore(before, xs, x);
      } else {
        NilLeft(before);
        NilLeft(xs);
      }
    }
  }

  lemma {:induction false} SectionsSolid(keys: Slots, vals: Slots, n: nat)
    requires n <= |Sections(keys)| && |keys| == |vals|
    ensures Solid(SectionLines(keys, vals, n)) == Lines(SectionItems(keys, vals, n))
  {
    hide Line, Lines, Solid, EntryLine, Sections, EntryLines, EntryItems;
    if n == 0 {
      NothingSolid();
    } else {
      SectionsSolid(keys, vals, n - 1);
      var sec := Sections(keys)[n - 1];
      var h := Header(sec);
      var lines, items := EntryLines(keys, vals, sec, |keys|), EntryItems(keys, vals, sec, |keys|);
      EntriesSolid(keys, vals, sec, |keys|);
      LineOf(h);
      SolidOne("");
      assert ["", "[" + sec + "]"] == [""] + [Line(h)];
      SolidConcat([""], [Line(h)]);
      NilLeft([Line(h)]);
      SolidConcat(["", "[" + sec + "]"], lines);
      LinesConcat([h], items);
      SolidConcat(SectionLines(keys, vals, n - 1), ["", "[" + sec + "]"] + lines);
      LinesConcat(SectionItems(keys, vals, n - 1), [h] + items);
    }
  }

  lemma {:induction false} FlatSolid(keys: Slots, vals: Slots, n: nat)
    requires n <= |keys| == |vals|
    ensures Solid(FlatLines(keys, vals, n)) == Lines(FlatItems(keys, vals, n))
  {
    hide Lines, Solid, Printed;
    if n == 0 {
      NothingSolid();
    } else {
      FlatSolid(keys, vals, n - 1);
      var before, xs := FlatLines(keys, vals, n - 1), FlatItems(keys, vals, n - 1);
      if keys[n - 1].Some? {
        SolidMore(before, xs, Bare(keys[n - 1].value, FlatValue(vals[n - 1])));
      } else {
        NilLeft(before);
        NilLeft(xs);
      }
    }
  }

  lemma DumpSolid(keys: Slots, vals: Slots)
    requires |keys| == |vals|
    ensures Solid(DumpLines(keys, vals)) == Lines(DumpItems(keys, vals))
  {
    hide Solid, Lines, Sections;
    var n := |Sections(keys)|;
    if n == 0 {
      FlatSolid(keys, vals, |keys|);
    } else {
      SectionsSolid(keys, vals, n);
      SolidConcat(SectionLines(keys, vals, n), [""]);
      SolidOne("");
    }
  }

  // ---------------------------------------------------------------------------
  // Where they come from
  // ---------------------------------------------------------------------------

  // An item of the dictionary `m`.
  predicate Of(x: Item, m: Entries) {
    && ':' !in Sec(x) && Key(x) in m
    && (x.Entry? ==> x.v == Shown(m[Key(x)]))
    && (x.Bare? ==> x.v == FlatValue(m[Key(x)]))
  }

  ghost predicate Different(xs: seq<Item>) {
    forall i, j :: 0 <= i < j < |xs| ==> Key(xs[i]) != Key(xs[j])
  }

  // An entry is in the section of the item before.
  predicate Chained(xs: seq<Item>) {
    forall i :: 0 <= i < |xs| ==> ChainedAt(xs, i)
  }

  predicate ChainedAt(xs: seq<Item>, i: nat)
    requires i < |xs|
  {
    xs[i].Header? || Sec(xs[i]) == if i == 0 then "" else Sec(xs[i - 1])
  }

  function Keys(xs: seq<Item>): set<string> {
    set x | x in xs :: Key(x)
  }

  lemma KeyOf(x: Item)
    ensures x.Header? ==> Key(x) == Place(x) == x.sec
    ensures x.Entry? ==> Key(x) == Place(x) == x.sec + ":" + x.e
    ensures x.Bare? ==> Key(x) == x.e && Place(x) == ":" + x.e
    ensures ':' !in Sec(x) ==> (':' in Place(x) <==> !x.Header?) && SectionOf(Place(x)) == Sec(x)
  {
    if ':' !in Sec(x) {
      if x.Header? {
        UptoIs(x.sec, {':'}, |x.sec|);
      } else {
        KeyParts(Place(x), Sec(x));
      }
    }
  }

  lemma {:induction false} EntryItemsOf(keys: Slots, vals: Slots, m: Entries, sec: string, n: nat)
    requires Holds(keys, vals, m) && Distinct(keys) && ':' !in sec && n <= |keys|
    ensures var xs := EntryItems(keys, vals, sec, n);
            && Different(xs)
            && forall x :: x in xs ==> x.Entry? && x.sec == sec && Of(x, m)
                                       && exists i :: 0 <= i < n && keys[i] == Some(Key(x))
  {
    hide Key;
    if n > 0 {
      EntryItemsOf(keys, vals, m, sec, n - 1);
      if BelongsTo(keys[n - 1], sec) {
        var key := keys[n - 1].value;
        KeyParts(key, sec);
        KeyOf(Entry(sec, key[|sec| + 1..], Shown(vals[n - 1])));
        assert key in m && m[key] == vals[n - 1];
      }
    }
  }

  // An entry has been made of every key of the section.
  lemma {:induction false} EntryKeys(keys: Slots, vals: Slots, sec: string, n: nat)
    requires ':' !in sec && n <= |keys| == |vals|
    ensures forall i :: 0 <= i < n && BelongsTo(keys[i], sec) ==> keys[i].value in Keys(EntryItems(keys, vals, sec, n))
  {
    hide EntryItems, Keys, BelongsTo;
    if n > 0 {
      EntryKeys(keys, vals, sec, n - 1);
      EntryKeysGrow(keys, vals, sec, n - 1);
    }
  }

  lemma EntryKeysGrow(keys: Slots, vals: Slots, sec: string, n: nat)
    requires ':' !in sec && n < |keys| == |vals|
    ensures Keys(EntryItems(keys, vals, sec, n)) <= Keys(EntryItems(keys, vals, sec, n + 1))
    ensures BelongsTo(keys[n], sec) ==> keys[n].value in Keys(EntryItems(keys, vals, sec, n + 1))
  {
    hide Key, Keys;
    if BelongsTo(keys[n], sec) {
      var x := Entry(sec, keys[n].value[|sec| + 1..], Shown(vals[n]));
      KeyParts(keys[n].value, sec);
      KeyOf(x);
      KeysMore(EntryItems(keys, vals, sec, n), x);
    } else {
      NilLeft(EntryItems(keys, vals, sec, n));
    }
  }

  lemma KeysConcat(a: seq<Item>, b: seq<Item>)
    ensures Keys(a + b) == Keys(a) + Keys(b)
  {
    hide Key;
  }

  lemma KeysMore(xs: seq<Item>, x: Item)
    ensures Keys(xs + [x]) == Keys(xs) + {Key(x)}
  {
    hide Key;
  }

  lemma {:induction false} FlatItemsOf(keys: Slots, vals: Slots, m: Entries, n: nat)
    requires Holds(keys, vals, m) && Distinct(keys) && n <= |keys|
    ensures var xs := FlatItems(keys, vals, n);
            && Different(xs)
            && (forall x :: x in xs ==> x.Bare? && Of(x, m) && exists i :: 0 <= i < n && keys[i] == Some(Key(x)))
            && (forall i :: 0 <= i < n && keys[i].Some? ==> keys[i].value in Keys(xs))
  {
    hide FlatValue;
    if n > 0 {
      FlatItemsOf(keys, vals, m, n - 1);
      if keys[n - 1].Some? {
        assert keys[n - 1].value in m && m[keys[n - 1].value] == vals[n - 1];
        KeysMore(FlatItems(keys, vals, n - 1), Bare(keys[n - 1].value, FlatValue(vals[n - 1])));
      }
    }
  }

  lemma {:induction false} SectionItemsOf(keys: Slots, vals: Slots, m: Entries, n: nat)
    requires Holds(keys, vals, m) && Distinct(keys) && n <= |Sections(keys)|
    ensures var xs := SectionItems(keys, vals, n);
            && Different(xs) && Chained(xs) && (n > 0 ==> xs != [] && xs[0] == Header(Sections(keys)[0]))
            && (forall x :: x in xs ==> Of(x, m) && !x.Bare? && x.sec in Sections(keys)[..n])
            && (forall j :: 0 <= j < n ==> Header(Sections(keys)[j]) in xs)
  {
    hide Sections, EntryItems, Key, Of, Distinct, Different, Chained;
    if n == 0 {
      NoItems();
    } else {
      var sec, before := Sections(keys)[n - 1], SectionItems(keys, vals, n - 1);
      var more := EntryItems(keys, vals, sec, |keys|);
      SectionItemsOf(keys, vals, m, n - 1);
      SectionsIn(keys, vals, m);
      NewSection(keys, n - 1);
      EntryItemsOf(keys, vals, m, sec, |keys|);
      HeaderOf(m, sec);
      SectionApart(m, before, sec, more);
    }
  }

  lemma {:induction false} SectionKeys(keys: Slots, vals: Slots, n: nat)
    requires |keys| == |vals| && n <= |Sections(keys)| && forall s :: s in Sections(keys) ==> ':' !in s
    ensures forall j, i :: 0 <= j < n && 0 <= i < |keys| && BelongsTo(keys[i], Sections(keys)[j]) ==>
              keys[i].value in Keys(SectionItems(keys, vals, n))
  {
    hide Sections, EntryItems, Keys, BelongsTo;
    if n > 0 {
      var sec := Sections(keys)[n - 1];
      var more := EntryItems(keys, vals, sec, |keys|);
      SectionKeys(keys, vals, n - 1);
      EntryKeys(keys, vals, sec, |keys|);
      KeysConcat(SectionItems(keys, vals, n - 1), [Header(sec)] + more);
      KeysConcat([Header(sec)], more);
    }
  }

  lemma NoItems()
    ensures Different([]) && Chained([])
  {
  }

  lemma NewSection(keys: Slots, n: nat)
    requires Distinct(keys) && n < |Sections(keys)|
    ensures Sections(keys)[n] !in Sections(keys)[..n]
    ensures Sections(keys)[..n + 1] == Sections(keys)[..n] + [Sections(keys)[n]]
  {
    hide Sections, Distinct;
    SectionsDiffer(keys);
  }

  lemma HeaderOf(m: Entries, sec: string)
    requires ':' !in sec && sec in m
    ensures Of(Header(sec), m)
  {
  }

  // The items of one more section.
  lemma SectionApart(m: Entries, before: seq<Item>, sec: string, more: seq<Item>)
    requires Different(before) && Chained(before) && Different(more)
    requires (forall x :: x in before ==> Of(x, m) && !x.Bare? && x.sec != sec) && Of(Header(sec), m)
    requires forall x :: x in more ==> x.Entry? && x.sec == sec && Of(x, m)
    ensures Different(before + ([Header(sec)] + more)) && Chained(before + ([Header(sec)] + more))
  {
    hide Key;
    var xs := before + ([Header(sec)] + more);
    forall i | 0 <= i < |xs|
      ensures !xs[i].Bare? && ':' !in xs[i].sec && (i >= |before| ==> xs[i].sec == sec) && Key(xs[i]) == Place(xs[i])
    {
      assert xs[i] in before || xs[i] == Header(sec) || xs[i] in more;
      KeyOf(xs[i]);
    }
    forall i, j | 0 <= i < j < |xs| ensures Key(xs[i]) != Key(xs[j]) {
      KeyOf(xs[i]);
      KeyOf(xs[j]);
    }
    ChainedMore(before, sec, more);
  }

  lemma ChainedMore(before: seq<Item>, sec: string, more: seq<Item>)
    requires Chained(before) && forall x :: x in more ==> x.Entry? && x.sec == sec
    ensures Chained(before + ([Header(sec)] + more))
  {
    var xs, n := before + ([Header(sec)] + more), |before|;
    assert xs[n] == Header(sec);
    forall i | n < i < |xs| ensures xs[i].Entry? && xs[i].sec == sec {
      assert xs[i] == more[i - n - 1];
    }
    forall i | 0 <= i < |xs| ensures ChainedAt(xs, i) {
      if i < n {
        assert ChainedAt(before, i);
      }
    }
  }

  // All items of a dictionary.
  lemma DumpItemsOf(keys: Slots, vals: Slots, m: Entries)
    requires Holds(keys, vals, m) && Distinct(keys)
    ensures var xs, secs := DumpItems(keys, vals), Sections(keys);
            && Different(xs) && Chained(xs) && (forall x :: x in xs ==> Of(x, m))
            && if secs == [] then
                 && (forall x :: x in xs ==> x.Bare?)
                 && (forall i :: 0 <= i < |keys| && keys[i].Some? ==> keys[i].value in Keys(xs))
               else
                 && xs != [] && xs[0] == Header(secs[0])
                 && (forall x :: x in xs ==> !x.Bare? && x.sec in secs)
                 && (forall s :: s in secs ==> Header(s) in xs)
                 && (forall s, i :: s in secs && 0 <= i < |keys| && BelongsTo(keys[i], s) ==> keys[i].value in Keys(xs))
  {
    hide Sections, Of, BelongsTo, Key;
    if Sections(keys) == [] {
      FlatItemsOf(keys, vals, m, |keys|);
      var xs := FlatItems(keys, vals, |keys|);
      forall i | 0 <= i < |xs| ensures Sec(xs[i]) == "" {
        assert xs[i] in xs;
      }
    } else {
      SectionItemsOf(keys, vals, m, |Sections(keys)|);
      SectionsIn(keys, vals, m);
      SectionKeys(keys, vals, |Sections(keys)|);
      DropAll(Sections(keys));
    }
  }

  // ---------------------------------------------------------------------------
  // How many they are
  // ---------------------------------------------------------------------------

  lemma {:induction false} KeysCount(xs: seq<Item>)
    requires Different(xs)
    ensures |Keys(xs)| == |xs|
  {
    hide Key;
    if xs != [] {
      var n := |xs| - 1;
      KeysCount(xs[..n]);
      assert xs == xs[..n] + [xs[n]];
      KeysMore(xs[..n], xs[n]);
      assert forall x :: x in xs[..n] ==> Key(x) != Key(xs[n]);
    } else {
      assert Keys(xs) == {};
    }
  }

  lemma Subset<T>(a: set<T>, b: set<T>)
    requires a <= b
    ensures |a| <= |b|
    ensures |a| == |b| ==> a == b
  {
    assert b == a + (b - a) && |b| == |a| + |b - a|;
  }

  // No more than there are keys, and if as many, every key is printed.
  lemma ItemsFew(xs: seq<Item>, m: Entries)
    requires Different(xs) && forall x :: x in xs ==> Of(x, m)
    ensures |xs| <= |m|
    ensures |xs| == |m| ==> Keys(xs) == m.Keys
  {
    hide Key;
    KeysCount(xs);
    assert Keys(xs) <= m.Keys && |m.Keys| == |m|;
    Subset(Keys(xs), m.Keys);
  }
}
