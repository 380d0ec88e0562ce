// What a dictionary must look like to come back when it is printed and the text is
// loaded, and what comes back then.

module IniRoundTrip {
  import opened Bytes
  import opened IniLine
  import opened IniEntry
  import opened IniLoad
  import opened IniDump
  import Dictionary

  // The section of a key: what precedes the first colon.
  function SectionOf(k: string): string {
    Upto(k, {':'})
  }

  function Shown(v: Option<string>): string {
    if v.Some? then v.value else ""
  }

  // An entry that one line can carry.
  predicate LineOk(e: string, pad: nat, v: string) {
    && KeyOk(e) && ValueOk(v) && !(e[0] == '[' && v != "" && v[|v| - 1] == ']')
    && '\n' !in e && '\n' !in v && '\0' !in e && '\0' !in v && |Printed(e, pad, v)| < ASCIILINESZ - 1 && !Continues(v)
  }

  predicate EntryOk(e: string, v: string) {
    LineOk(e, Padding(e), v)
  }

  predicate KeyFits(m: Entries, k: string)
    requires k in m
  {
    if ':' !in k then (NameOk(k) || k == "") && '\n' !in k && '\0' !in k && |k| + 2 < ASCIILINESZ - 1
    else SectionOf(k) in m && |SectionOf(k)| < |k| && EntryOk(k[|SectionOf(k)| + 1..], Shown(m[k]))
  }

  // Dictionaries whose sections and entries are clear of the grammar's special
  // characters and of the line limit.
  ghost predicate WellFormed(m: Entries) {
    forall k :: k in m ==> KeyFits(m, k)
  }

  // Besides, only the first section may have an empty name: elsewhere an empty header
  // stands for the section before.
  ghost predicate Printable(keys: Slots, m: Entries) {
    WellFormed(m) && forall j :: 0 < j < |Sections(keys)| ==> Sections(keys)[j] != ""
  }

  // What is lost in print: sections have no value, and a null value is empty.
  function Norm(m: Entries): Entries {
    map k | k in m :: if ':' in k then Some(Shown(m[k])) else None
  }

  // Nothing is lost exactly when the entries, and only they, have a value.
  lemma NormKeeps(m: Entries)
    ensures Norm(m) == m <==> forall k :: k in m ==> (m[k].Some? <==> ':' in k)
  {
    if Norm(m) == m {
      forall k | k in m ensures m[k].Some? <==> ':' in k {
        assert Norm(m)[k] == m[k];
      }
    }
  }

  // ---------------------------------------------------------------------------
  // Slots
  // ---------------------------------------------------------------------------

  // Slots that hold keys of `m` with their values.
  predicate Holds(keys: Slots, vals: Slots, m: Entries) {
    |keys| == |vals| &&
    forall i :: 0 <= i < |keys| && keys[i].Some? ==> keys[i].value in m && m[keys[i].value] == vals[i]
  }

  predicate Distinct(keys: Slots) {
    forall i, j :: 0 <= i < j < |keys| && keys[i].Some? ==> keys[i] != keys[j]
  }

  ghost predicate Covers(keys: Slots, m: Entries) {
    forall k :: k in m ==> exists i :: 0 <= i < |keys| && keys[i] == Some(k)
  }

  lemma SlotFacts(keys: Slots, vals: Slots, hashes: seq<nat>, hashOf: string -> nat, m: Entries)
    requires Dictionary.Represents(keys, vals, hashes, hashOf, m)
    ensures Holds(keys, vals, m) && Distinct(keys) && Covers(keys, m)
  {
  }

  lemma {:induction false} SectionsNamed(keys: Slots)
    ensures forall s :: s in Sections(keys) ==> ':' !in s && Some(s) in keys
    ensures forall i :: 0 <= i < |keys| && NamesSection(keys[i]) ==> keys[i].value in Sections(keys)
  {
    if keys != [] {
      SectionsNamed(keys[..|keys| - 1]);
      assert keys == keys[..|keys| - 1] + [keys[|keys| - 1]];
    }
  }

  lemma {:induction false} SectionsDiffer(keys: Slots)
    requires Distinct(keys)
    ensures forall i, j :: 0 <= i < j < |Sections(keys)| ==> Sections(keys)[i] != Sections(keys)[j]
  {
    if keys != [] {
      var m := |keys| - 1;
      SectionsDiffer(keys[..m]);
      SectionsNamed(keys[..m]);
      assert keys == keys[..m] + [keys[m]];
      assert keys[m].Some? ==> keys[m] !in keys[..m];
    }
  }

  lemma SectionsIn(keys: Slots, vals: Slots, m: Entries)
    requires Holds(keys, vals, m)
    ensures forall s :: s in Sections(keys) ==> s in m && ':' !in s
  {
    hide Sections;
    SectionsNamed(keys);
    forall s | s in Sections(keys) ensures s in m && ':' !in s {
      var i :| 0 <= i < |keys| && keys[i] == Some(s);
    }
  }

  // ---------------------------------------------------------------------------
  // One line
  // ---------------------------------------------------------------------------

  lemma LineFits(e: string, pad: nat, v: string)
    requires LineOk(e, pad, v)
    ensures Fits(Printed(e, pad, v))
  {
    hide StripLeft, Lower, StripRight;
    var line := e + seq(pad, _ => ' ') + " =" + if v == "" then "" else " " + v;
    var tail := if v == "" then " " else "";
    StripRightIs(line, tail);
    assert line + tail == Printed(e, pad, v);
  }

  lemma HeaderFits(s: string)
    requires (NameOk(s) || s == "") && '\n' !in s && '\0' !in s && |s| + 2 < ASCIILINESZ - 1
    ensures Fits("[" + s + "]")
  {
    hide StripLeft, Lower, StripRight;
    StripRightIs("[" + s + "]", "");
    NilLeft("[" + s + "]");
  }

  // A line can carry an entry exactly if it fits and is read as the entry.
  lemma LineCarries(e: string, pad: nat, v: string)
    ensures LineOk(e, pad, v) <==>
            Fits(Printed(e, pad, v)) && Classify(Printed(e, pad, v), "") == Value(e, v)
  {
    hide Classify, KeyOk, ValueOk, StripRight;
    EntryReadsBack(e, pad, v, "");
    PrintedHas(e, pad, v);
    if LineOk(e, pad, v) {
      LineFits(e, pad, v);
    }
    if ValueOk(v) {
      OkIsTrimmed(v);
      LastOf(e, pad, v);
    }
  }

  lemma OkIsTrimmed(v: string)
    requires ValueOk(v)
    ensures Trimmed(v)
  {
  }

  lemma PrintedHas(k: string, pad: nat, v: string)
    ensures forall c :: c in k || c in v ==> c in Printed(k, pad, v)
    ensures forall c :: c in Printed(k, pad, v) ==> c in k || c in v || c == ' ' || c == '='
  {
  }

  lemma LastOf(k: string, pad: nat, v: string)
    requires Trimmed(v)
    ensures Continues(v) ==> Continues(StripRight(Printed(k, pad, v)))
  {
    hide StripRight;
    if v != "" {
      var line := Printed(k, pad, v);
      assert line + "" == line && line[|line| - 1] == v[|v| - 1];
      StripRightIs(line, "");
    }
  }

  lemma BlankApplies(st: Store)
    ensures Apply(st, "") == st
    ensures Fits("")
  {
    StripTrimmed("");
  }

  lemma KeyParts(key: string, sec: string)
    requires ':' !in sec && sec + ":" <= key
    ensures ':' in key && SectionOf(key) == sec && sec + ":" + key[|sec| + 1..] == key
  {
    assert key[|sec|] == (sec + ":")[|sec|];
    assert forall i :: 0 <= i < |sec| ==> key[i] == (sec + ":")[i] == sec[i];
    assert key[..|sec|] == sec;
    UptoIs(key, {':'}, |sec|);
  }
}
