// Texts on which the two loaders behave in a way that their callers may not expect.

module IniInputs {
  import opened Bytes
  import opened IniLine
  import opened IniEntry
  import opened IniLoad
  import opened IniLoadMem
  import opened IniReach
  import opened IniDump
  import opened IniText

  lemma Reads(st: Store, k: string, v: string)
    requires KeyOk(k) && ValueOk(v) && k[0] != '['
    ensures Apply(st, k + " = " + v) == Store(st.entries[st.section + ":" + k := Some(v)], st.section, 0)
  {
    hide Classify, KeyOk, ValueOk;
    EntryReadsBack(k, 0, v, st.section);
    NilLeft(k);
    assert k + seq(0, _ => ' ') + " = " + v == k + " = " + v;
  }

  lemma FoldOne(st: Store, l: string)
    ensures Fold(st, [l]) == Apply(st, l)
  {
    FoldNone(st);
    FoldSnoc(st, [], l);
    NilLeft([l]);
  }

  lemma FoldPair(st: Store, a: string, b: string)
    ensures Fold(st, [a, b]) == Apply(Apply(st, a), b)
  {
    FoldOne(st, a);
    FoldSnoc(st, [a], b);
    assert [a, b] == [a] + [b];
  }

  // The file loader reads one entry where the memory loader reads two.
  lemma ContinuationLoads()
    ensures var text := Text(["a = 1\\", "b = 2"]);
            && Load(text) == Some(map[":a" := Some("1b = 2")])
            && LoadMem(text, |text|) == Some(map[":a" := Some("1\\"), ":b" := Some("2")])
            && Load(text) != LoadMem(text, |text|)
  {
    hide Apply, Fold, LogicalLines, MemLines, StripRight, Text, KeyOk, ValueOk;
    var p, q := "a = 1", "b = 2";
    assert p + "\\" == "a = 1\\" && p + q == "a = 1b = 2";
    ContinuationIs(p, q);
    var text := Text([p + "\\", q]);
    Values();
    ApplyTrimmed(Start(), p + q);
    FoldOne(Start(), StripRight(p + q));
    Reads(Start(), "a", "1b = 2");
    assert "a" + " = " + "1b = 2" == p + q;
    var one := Apply(Start(), p + "\\");
    Reads(Start(), "a", "1\\");
    assert "a" + " = " + "1\\" == p + "\\";
    Reads(one, "b", "2");
    assert "b" + " = " + "2" == q;
    FoldPair(Start(), p + "\\", q);
    FoldWithEnds(Start(), [p + "\\", q]);
    TwoLines(p + "\\", q);
    var two := map[":a" := Some("1\\"), ":b" := Some("2")];
    assert "" + ":" + "a" == ":a" && "" + ":" + "b" == ":b";
    assert ":b" in two && ":b" !in map[":a" := Some("1b = 2")];
  }

  lemma ContinuationIs(p: string, q: string)
    requires p == "a = 1" && q == "b = 2"
    ensures var text := Text([p + "\\", q]);
            && LogicalLines(text, "") == Some([StripRight(p + q)])
            && MemLines(text, 0, |text|) == [p + "\\" + "\n", q + "\n"]
  {
    assert p + "\\" == "a = 1\\" && p + q == "a = 1b = 2";
    assert (p + q)[|p + q| - 1] == '2';
    StripRightStep(p + q, |p + q|);
    DropAll(p + q);
    ContinuationDiffers(p, q);
  }

  lemma Values()
    ensures KeyOk("a") && KeyOk("b") && ValueOk("1b = 2") && ValueOk("1\\") && ValueOk("1") && ValueOk("2")
  {
  }

  // A line that is too long makes the file loader fail, and the memory loader drop it
  // together with all that follows.
  lemma LongLineLoads()
    ensures var text := Text(["a = 1", Long(), "b = 2"]);
            Load(text) == None && LoadMem(text, |text|) == Some(map[":a" := Some("1")])
  {
    hide Apply, Fold, LogicalLines, StripRight, Text, KeyOk, ValueOk, LoadMem;
    var lines := ["a = 1", Long(), "b = 2"];
    assert Whole("a = 1") && Whole("b = 2") && Whole(Long());
    LongLineFails(lines, "", 1);
    LinesReached(lines);
    LongIsFirst(lines);
    FoldOne(Start(), "a = 1");
    Values();
    Reads(Start(), "a", "1");
    assert "a" + " = " + "1" == "a = 1" && "" + ":" + "a" == ":a";
  }

  function Long(): string {
    seq(1024, _ => 'x')
  }

  lemma LongIsFirst(lines: seq<string>)
    requires lines == ["a = 1", Long(), "b = 2"]
    ensures lines[..Reach(lines)] == ["a = 1"]
  {
    assert lines[1..] == [Long(), "b = 2"];
    assert Reach(lines[1..]) == 0;
  }

  // A syntax error in front of a header goes unnoticed.
  lemma EarlyErrorLoads()
    ensures Classify("x", "").Error? && Load(Text(["x", "[s]"])) == Some(map["s" := None])
  {
    hide Sscanf, Fold, Text, LogicalLines;
    EarlyLines();
    LoadsLines(["x", "[s]"]);
    FoldPair(Start(), "x", "[s]");
    KindIgnoresSection("x", "");
    HeaderReadsBack("s", "");
    assert "[" + "s" + "]" == "[s]";
  }

  lemma EarlyLines()
    ensures Fits("x") && Fits("[s]") && Classify("x", "") == Error
  {
    StripTrimmed("x");
    StripRightStep("x", 1);
    StripRightStep("[s]", 3);
    DropAll("x");
    DropAll("[s]");
    ValueLine("x", "");
  }

  // Names and keys are loaded in small letters.
  lemma CapitalsLoad()
    ensures Text(["[Main]", "Port = 80"]) == "[Main]\nPort = 80\n"
    ensures Load("[Main]\nPort = 80\n") == Some(map["main" := None, "main:port" := Some("80")])
  {
    hide Apply, Fold, Text, Load, Fits, Classify, Lacks;
    var a, b := "[Main]", "Port = 80";
    TextOfTwo(a, b);
    assert a + "\n" + b + "\n" == "[Main]\nPort = 80\n";
    CapitalLines(a, b);
    LoadsLines([a, b]);
    FoldPair(Start(), a, b);
    CapitalHeader();
    CapitalValue();
    assert "main" + ":" + "port" == "main:port";
  }

  lemma TextOfTwo(a: string, b: string)
    ensures Text([a, b]) == a + "\n" + b + "\n"
  {
    assert [a, b][1..] == [b] && [b][1..] == [];
    assert Text([]) == "";
  }

  lemma CapitalLines(a: string, b: string)
    requires a == "[Main]" && b == "Port = 80"
    ensures Fits(a) && Fits(b)
  {
    hide Fits;
    FitsIs(a);
    FitsIs(b);
  }

  lemma CapitalHeader()
    ensures Apply(Start(), "[Main]") == Store(map["main" := None], "main", 0)
  {
    hide Classify;
    HeaderLine("", "", "Main", "", "", "", "");
    assert "" + ("[" + ("" + "Main" + "") + "]" + "") + "" == "[Main]";
    var n := Classify("[Main]", "").name;
    assert n == "main";
  }

  lemma CapitalValue()
    ensures var st := Store(map["main" := None], "main", 0);
            Apply(st, "Port = 80") == Store(st.entries["main" + ":" + "port" := Some("80")], "main", 0)
  {
    hide Classify;
    PlainValue("", "Port", " ", " ", "80", "", "", "", "main");
    assert "" + ("Port" + " " + "=" + (" " + ("80" + "" + ""))) + "" == "Port = 80";
    var k := Classify("Port = 80", "main").key;
    assert k == "port";
  }

  // ---------------------------------------------------------------------------
  // Printed text
  // ---------------------------------------------------------------------------

  lemma SectionsSnoc(keys: Slots, k: Option<string>)
    ensures Sections(keys + [k]) == Sections(keys) + if NamesSection(k) then [k.value] else []
  {
    assert (keys + [k])[..|keys|] == keys;
  }

  lemma EntrySnoc(keys: Slots, vals: Slots, sec: string, n: nat)
    requires n < |keys| == |vals|
    ensures EntryLines(keys, vals, sec, n + 1) ==
            EntryLines(keys, vals, sec, n) +
            if BelongsTo(keys[n], sec)
            then [EntryLine(keys[n].value[|sec| + 1..], if vals[n].Some? then vals[n].value else "")]
            else []
  {
  }

  lemma OneSection(a: Option<string>, b: Option<string>, c: Option<string>, d: Option<string>)
    requires NamesSection(a) && !NamesSection(b) && !NamesSection(c) && !NamesSection(d)
    ensures Sections([a, b, c, d]) == [a.value]
  {
    hide NamesSection, Sections;
    SectionsSnoc([], a);
    SectionsSnoc([a], b);
    SectionsSnoc([a, b], c);
    SectionsSnoc([a, b, c], d);
    assert [] + [a] == [a] && [a] + [b] == [a, b] && [a, b] + [c] == [a, b, c] && [a, b, c] + [d] == [a, b, c, d];
    NoSections();
  }

  lemma NoSections()
    ensures Sections([]) == []
  {
  }

  lemma EntryIs(k: string, v: string)
    requires |k| == 1
    ensures EntryLine(k, v) == k + seq(29, _ => ' ') + " = " + v
  {
  }

  // A section with two entries as it is printed, one of them without a value.
  lemma PrintedSection(keys: Slots, vals: Slots)
    requires keys == [Some("s"), Some("s:a"), None, Some("s:b")] && vals == [None, Some("1"), None, None]
    ensures DumpLines(keys, vals) ==
            ["", "[s]", "a" + seq(29, _ => ' ') + " = " + "1", "b" + seq(29, _ => ' ') + " = " + "", ""]
  {
    hide EntryLine, Sections, EntryLines;
    SectionSlots();
    OneSection(keys[0], keys[1], keys[2], keys[3]);
    NoEntries(keys, vals);
    EntrySnoc(keys, vals, "s", 0);
    EntrySnoc(keys, vals, "s", 1);
    EntrySnoc(keys, vals, "s", 2);
    EntrySnoc(keys, vals, "s", 3);
    EntryIs("a", "1");
    EntryIs("b", "");
    assert "[" + "s" + "]" == "[s]";
    assert SectionLines(keys, vals, 0) == [];
  }

  lemma NoEntries(keys: Slots, vals: Slots)
    requires |keys| == |vals|
    ensures EntryLines(keys, vals, "s", 0) == []
  {
  }

  lemma SectionSlots()
    ensures NamesSection(Some("s")) && !NamesSection(Some("s:a")) && !NamesSection(None) && !NamesSection(Some("s:b"))
    ensures !BelongsTo(Some("s"), "s") && !BelongsTo(None, "s")
    ensures BelongsTo(Some("s:a"), "s") && BelongsTo(Some("s:b"), "s")
    ensures "s:a"[|"s"| + 1..] == "a" && "s:b"[|"s"| + 1..] == "b"
  {
    assert "s:a"[1] == ':' && "s:b"[1] == ':';
    assert "s" + ":" == "s:" && "s:a"[..2] == "s:" && "s:b"[..2] == "s:";
  }

  // Without a section, the keys are printed as they are, and a null pointer as text.
  lemma PrintedFlat(keys: Slots, vals: Slots)
    requires keys == [Some("s:a"), Some("s:b")] && vals == [Some("1"), None]
    ensures DumpLines(keys, vals) == ["s:a = 1", "s:b = (null)"]
  {
    hide Sections;
    SectionSlots();
    NoSections();
    SectionsSnoc([], keys[0]);
    SectionsSnoc([keys[0]], keys[1]);
    assert [] + [keys[0]] == [keys[0]] && [keys[0]] + [keys[1]] == keys;
    FlatIs("s:a", "1");
    FlatIs("s:b", "(null)");
    assert "s:a" + " = " + "1" == "s:a = 1" && "s:b" + " = " + "(null)" == "s:b = (null)";
    assert FlatLines(keys, vals, 0) == [] && FlatLines(keys, vals, 1) == ["s:a = 1"];
  }

  lemma FlatIs(k: string, v: string)
    ensures Printed(k, 0, v) == k + " = " + v
  {
    var none: string := seq(0, _ => ' ');
    assert none == [] && k + none == k;
  }
}
