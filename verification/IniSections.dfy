// The order of sections: that of the headers in the text that was loaded.

module IniSections {
  import opened Bytes
  import opened IniLine
  import opened IniLoad
  import opened IniOrder
  import opened IniDump
  import Dictionary

  // Without the names that have a colon, which name no section.
  function NoColons(s: seq<string>): seq<string> {
    if s == [] then [] else (if ':' in s[0] then [] else [s[0]]) + NoColons(s[1..])
  }

  // The names of all headers.
  function HeaderNames(section: string, lines: seq<string>): seq<string>
    decreases lines
  {
    if lines == [] then []
    else match Classify(lines[0], section)
         case Section(name) => [name] + HeaderNames(name, lines[1..])
         case _ => HeaderNames(section, lines[1..])
  }

  lemma {:induction false} NoColonsConcat(a: seq<string>, b: seq<string>)
    ensures NoColons(a + b) == NoColons(a) + NoColons(b)
  {
    if a == [] {
      NilLeft(b);
      NilLeft(NoColons(b));
    } else {
      assert (a + b)[0] == a[0] && (a + b)[1..] == a[1..] + b;
      NoColonsConcat(a[1..], b);
      Assoc(if ':' in a[0] then [] else [a[0]], NoColons(a[1..]), NoColons(b));
    }
  }

  lemma NoColonsOne(k: string)
    ensures NoColons([k]) == if ':' in k then [] else [k]
  {
    assert [k][1..] == [];
  }

  // The key of a value line always has a colon.
  lemma {:induction false} NoColonsStored(section: string, lines: seq<string>)
    ensures NoColons(StoredKeys(section, lines)) == NoColons(HeaderNames(section, lines))
    decreases lines
  {
    hide Classify, NoColons;
    if lines != [] {
      NoColonsStored(SectionAfter(lines[0], section), lines[1..]);
      var more := StoredKeys(SectionAfter(lines[0], section), lines[1..]);
      match Classify(lines[0], section)
      case Section(name) =>
        NoColonsConcat([name], more);
        NoColonsConcat([name], HeaderNames(name, lines[1..]));
      case Value(key, _) =>
        NoColonsOne(section + ":" + key);
        NoColonsConcat([section + ":" + key], more);
        HasColon(section, key);
        NilLeft(NoColons(more));
      case _ =>
        NilLeft(more);
    }
  }

  lemma HasColon(a: string, b: string)
    ensures ':' in a + ":" + b
  {
    assert (a + ":" + b)[|a|] == ':';
  }

  lemma {:induction false} NoColonsHas(s: seq<string>, x: string)
    ensures x in NoColons(s) <==> x in s && ':' !in x
  {
    if s != [] {
      NoColonsHas(s[1..], x);
      assert s == [s[0]] + s[1..];
    }
  }

  lemma NoColonsAdded(s: seq<string>, x: string)
    ensures NoColons(Added(s, x)) == if ':' in x then NoColons(s) else Added(NoColons(s), x)
  {
    hide NoColons;
    NoColonsHas(s, x);
    if x !in s {
      NoColonsConcat(s, [x]);
      NoColonsOne(x);
      NilLeft(NoColons(s));
    }
  }

  lemma {:induction false} NoColonsAddAll(acc: seq<string>, s: seq<string>)
    ensures NoColons(AddAll(acc, s)) == AddAll(NoColons(acc), NoColons(s))
    decreases s
  {
    hide Added;
    if s != [] {
      NoColonsAdded(acc, s[0]);
      NoColonsAddAll(Added(acc, s[0]), s[1..]);
      var more := NoColons(s[1..]);
      assert ([s[0]] + more)[1..] == more;
      NilLeft(more);
    }
  }

  // The sections among the first i slots of a table whose keys line up.
  lemma {:induction false} SectionsLined(keys: Slots, order: seq<string>, i: nat)
    requires Lined(keys, order) && i <= |keys|
    ensures Sections(keys[..i]) == NoColons(order[..Min(i, |order|)])
  {
    hide NoColons;
    if i == 0 {
      NothingThere();
      assert order[..0] == [] && keys[..0] == [];
    } else {
      SectionsLined(keys, order, i - 1);
      SectionsStep(keys, i - 1);
      if i <= |order| {
        assert order[..i] == order[..i - 1] + [order[i - 1]];
        NoColonsConcat(order[..i - 1], [order[i - 1]]);
        NoColonsOne(order[i - 1]);
      } else {
        NilLeft(Sections(keys[..i - 1]));
      }
    }
  }

  lemma NothingThere()
    ensures Sections([]) == [] == NoColons([])
  {
  }

  // After loading, the sections are the headers of the text, each where it appears first.
  lemma LoadedSections(text: string, keys: Slots)
    requires LoadOrder(text).Some? && Lined(keys, LoadOrder(text).value)
    ensures LogicalLines(text, "").Some?
    ensures Sections(keys) == Firsts(NoColons(HeaderNames("", LogicalLines(text, "").value)))
  {
    hide LogicalLines, Lined, NoColons, AddAll;
    var ls, order := LogicalLines(text, "").value, LoadOrder(text).value;
    SectionsLined(keys, order, |keys|);
    DropAll(keys);
    LinedLength(keys, order);
    DropAll(order);
    NoColonsAddAll([], StoredKeys("", ls));
    NoColonsStored("", ls);
    NothingThere();
  }

  lemma LinedLength(keys: Slots, order: seq<string>)
    requires Lined(keys, order)
    ensures |order| <= |keys|
  {
  }

  // iniparser_load and then iniparser_getsecname: the n-th distinct header.
  method LoadedSection(text: string, hashOf: string -> nat, n: int) returns (ok: bool, r: Option<string>)
    ensures ok <==> Load(text).Some?
    ensures ok ==> LogicalLines(text, "").Some?
    ensures ok ==> var s := Firsts(NoColons(HeaderNames("", LogicalLines(text, "").value)));
                   r == if 0 <= n < |s| then Some(s[n]) else None
  {
    hide Load, LoadOrder, LogicalLines, Lined, Firsts, Sections;
    var d := IniparserLoad(text, hashOf);
    if d == null {
      return false, None;
    }
    LoadedSections(text, d.key[..]);
    r := Getsecname(d, n);
    ok := true;
  }
}
