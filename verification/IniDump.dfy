// Printing a dictionary as INI text.

module IniDump {
  import opened Bytes
  import opened IniEntry
  import opened IniLoad
  import Dictionary

  // ---------------------------------------------------------------------------
  // What is printed
  // ---------------------------------------------------------------------------

  type Slots = seq<Option<string>>

  predicate NamesSection(key: Option<string>) {
    key.Some? && ':' !in key.value
  }

  // The keys without a colon, in slot order.
  function Sections(keys: Slots): seq<string> {
    if keys == [] then [] else
    var m := |keys| - 1;
    Sections(keys[..m]) + if NamesSection(keys[m]) then [keys[m].value] else []
  }

  predicate BelongsTo(key: Option<string>, sec: string) {
    key.Some? && sec + ":" <= key.value
  }

  // The lines for the entries of a section among the first n slots.
  function EntryLines(keys: Slots, vals: Slots, sec: string, n: nat): seq<string>
    requires n <= |keys| == |vals|
  {
    if n == 0 then [] else
    EntryLines(keys, vals, sec, n - 1) +
    if BelongsTo(keys[n - 1], sec)
    then [EntryLine(keys[n - 1].value[|sec| + 1..], if vals[n - 1].Some? then vals[n - 1].value else "")]
    else []
  }

  // Headers and entries of the first n sections.
  function SectionLines(keys: Slots, vals: Slots, n: nat): seq<string>
    requires n <= |Sections(keys)| && |keys| == |vals|
  {
    if n == 0 then [] else
    var sec := Sections(keys)[n - 1];
    SectionLines(keys, vals, n - 1) + (["", "[" + sec + "]"] + EntryLines(keys, vals, sec, |keys|))
  }

  // Without sections every key is printed as it is; printf shows a null pointer.
  function FlatValue(v: Option<string>): string {
    if v.Some? then v.value else "(null)"
  }

  function FlatLine(k: string, v: Option<string>): string {
    Printed(k, 0, FlatValue(v))
  }

  function FlatLines(keys: Slots, vals: Slots, n: nat): seq<string>
    requires n <= |keys| == |vals|
  {
    if n == 0 then [] else
    FlatLines(keys, vals, n - 1) +
    if keys[n - 1].Some? then [FlatLine(keys[n - 1].value, vals[n - 1])] else []
  }

  function DumpLines(keys: Slots, vals: Slots): seq<string>
    requires |keys| == |vals|
  {
    if Sections(keys) == [] then FlatLines(keys, vals, |keys|)
    else SectionLines(keys, vals, |Sections(keys)|) + [""]
  }

  // ---------------------------------------------------------------------------
  // How it is printed
  // ---------------------------------------------------------------------------

  lemma {:induction false} TextConcat(a: seq<string>, b: seq<string>)
    ensures Text(a + b) == Text(a) + Text(b)
  {
    if a == [] {
      NilLeft(b);
      NilLeft(Text(b));
    } else {
      assert (a + b)[0] == a[0] && (a + b)[1..] == a[1..] + b;
      TextConcat(a[1..], b);
      Assoc(a[0] + "\n", Text(a[1..]), Text(b));
    }
  }

  lemma TextSnoc(a: seq<string>, l: string)
    ensures Text(a + [l]) == Text(a) + l + "\n"
  {
    TextConcat(a, [l]);
    assert Text([l]) == l + "\n";
    Assoc(Text(a), l, "\n");
  }

  lemma SectionsStep(keys: Slots, i: nat)
    requires i < |keys|
    ensures Sections(keys[..i + 1]) ==
            Sections(keys[..i]) + if NamesSection(keys[i]) then [keys[i].value] else []
  {
    assert keys[..i + 1][..i] == keys[..i];
  }

  lemma {:induction false} SectionsGrow(keys: Slots, i: nat)
    requires i <= |keys|
    ensures Sections(keys[..i]) <= Sections(keys)
    decreases |keys| - i
  {
    if i == |keys| {
      DropAll(keys);
    } else {
      SectionsStep(keys, i);
      SectionsGrow(keys, i + 1);
    }
  }

  // iniparser_getnsec
  method Getnsec(d: Dictionary.Table) returns (nsec: nat)
    requires d.Valid()
    ensures nsec == |Sections(d.key[..])|
  {
    hide Sections;
    ghost var keys := d.key[..];
    nsec := 0;
    var i := 0;
    NoSections(keys);
    while i < d.size
      invariant i <= d.size && nsec == |Sections(keys[..i])|
    {
      SectionsStep(keys, i);
      if d.key[i].Some? && ':' !in d.key[i].value {
        nsec := nsec + 1;
      }
      i := i + 1;
    }
    DropAll(keys);
  }

  lemma NoSections(keys: Slots)
    ensures Sections(keys[..0]) == []
  {
  }

  // iniparser_getsecname
  method Getsecname(d: Dictionary.Table, n: int) returns (r: Option<string>)
    requires d.Valid()
    ensures var s := Sections(d.key[..]); r == if 0 <= n < |s| then Some(s[n]) else None
  {
    hide Sections;
    if n < 0 {
      return None;
    }
    ghost var keys := d.key[..];
    var foundsec, i := 0, 0;
    NoSections(keys);
    while i < d.size
      invariant i <= d.size && foundsec == |Sections(keys[..i])| <= n
    {
      SectionsStep(keys, i);
      SectionsGrow(keys, i + 1);
      if d.key[i].Some? && ':' !in d.key[i].value {
        foundsec := foundsec + 1;
        if foundsec > n {
          return d.key[i];
        }
      }
      i := i + 1;
    }
    DropAll(keys);
    return None;
  }

  // The inner loop of iniparser_dump_ini.
  method PrintEntries(d: Dictionary.Table, sec: string) returns (out: string)
    requires d.Valid()
    ensures out == Text(EntryLines(d.key[..], d.val[..], sec, |d.key[..]|))
  {
    hide Text, EntryLine, d.Valid;
    ghost var keys, vals := d.key[..], d.val[..];
    out := "";
    var j := 0;
    TextNil();
    SameSize(d);
    while j < d.size
      invariant j <= d.size && out == Text(EntryLines(keys, vals, sec, j))
    {
      if d.key[j].Some? && sec + ":" <= d.key[j].value {
        var l := EntryLine(d.key[j].value[|sec| + 1..], if d.val[j].Some? then d.val[j].value else "");
        TextSnoc(EntryLines(keys, vals, sec, j), l);
        out := out + l + "\n";
      } else {
        NilLeft(EntryLines(keys, vals, sec, j));
      }
      j := j + 1;
    }
  }

  lemma TextNil()
    ensures Text([]) == ""
  {
  }

  lemma SameSize(d: Dictionary.Table)
    requires d.Valid()
    ensures d.key.Length == d.val.Length == d.size == |d.key[..]| == |d.val[..]|
  {
  }

  lemma NoPadding(k: string, v: string)
    ensures Printed(k, 0, v) == k + " = " + v
  {
    NilLeft(k);
    assert seq(0, _ => ' ') == "";
  }

  // The loop over the keys when there is no section.
  method PrintFlat(d: Dictionary.Table) returns (out: string)
    requires d.Valid()
    ensures out == Text(FlatLines(d.key[..], d.val[..], |d.key[..]|))
  {
    hide Text, d.Valid;
    ghost var keys, vals := d.key[..], d.val[..];
    out := "";
    var i := 0;
    TextNil();
    SameSize(d);
    while i < d.size
      invariant i <= d.size && out == Text(FlatLines(keys, vals, i))
    {
      if d.key[i].Some? {
        var v := FlatValue(d.val[i]);
        var l := d.key[i].value + " = " + v;
        NoPadding(d.key[i].value, v);
        TextSnoc(FlatLines(keys, vals, i), l);
        out := out + l + "\n";
      } else {
        NilLeft(FlatLines(keys, vals, i));
      }
      i := i + 1;
    }
  }

  // iniparser_dump_ini
  method DumpIni(d: Dictionary.Table) returns (out: string)
    requires d.Valid()
    ensures |d.key[..]| == |d.val[..]| && out == Text(DumpLines(d.key[..], d.val[..]))
  {
    hide Text, Sections, EntryLines, FlatLines, d.Valid;
    ghost var keys, vals := d.key[..], d.val[..];
    SameSize(d);
    TextNil();
    var nsec := Getnsec(d);
    if nsec < 1 {
      out := PrintFlat(d);
      return;
    }
    out := "";
    var i := 0;
    while i < nsec
      invariant i <= nsec && out == Text(SectionLines(keys, vals, i))
    {
      var secname := Getsecname(d, i);
      var entries := PrintEntries(d, secname.value);
      HeaderText(SectionLines(keys, vals, i), secname.value, EntryLines(keys, vals, secname.value, |keys|));
      out := out + "\n[" + secname.value + "]\n" + entries;
      i := i + 1;
    }
    TextSnoc(SectionLines(keys, vals, i), "");
    assert out + "" + "\n" == out + "\n";
    out := out + "\n";
  }

  lemma HeaderText(before: seq<string>, sec: string, entries: seq<string>)
    ensures Text(before + (["", "[" + sec + "]"] + entries)) ==
            Text(before) + "\n[" + sec + "]\n" + Text(entries)
  {
    hide Text;
    var head := ["", "[" + sec + "]"];
    TextConcat(before, head + entries);
    TextConcat(head, entries);
    TextSnoc([], "");
    TextSnoc([""], "[" + sec + "]");
    TextNil();
    assert [] + [""] == [""] && [""] + ["[" + sec + "]"] == head;
    assert Text(head) == "\n[" + sec + "]\n";
    HeaderAssoc(Text(before), sec, Text(entries));
  }

  lemma HeaderAssoc(a: string, sec: string, e: string)
    ensures a + ("\n[" + sec + "]\n" + e) == a + "\n[" + sec + "]\n" + e
  {
  }
}
