// Which lines read back as what was printed: exactly which keys, values and section
// names survive one line of an INI file.

module IniEntry {
  import opened Bytes
  import opened IniLine

  // What is left after the first `=` and the blanks behind it, if there is a key.
  function AfterEquals(line: string): Option<string> {
    var k := Upto(line, {'='});
    if k == "" || |k| == |line| then None else Some(StripLeft(line[|k| + 1..]))
  }

  // A pattern that starts with `%[^=] = ` reads the key, the sign and the blanks.
  lemma ScanKey(rest: Pattern, line: string)
    ensures var a := Sscanf(Not({'='}, Space(Lit('=', Space(rest)))), line);
            match AfterEquals(line)
            case None => |a| < 2
            case Some(r) => a == [Upto(line, {'='})] + Sscanf(rest, r)
  {
    hide Upto, StripLeft;
    var k := Upto(line, {'='});
    var s := line[|k|..];
    UptoFacts(line, {'='});
    ScanSign(rest, s);
    assert |k| < |line| ==> s[0] == '=' && s[1..] == line[|k| + 1..];
  }

  lemma ScanSign(rest: Pattern, s: string)
    ensures s == "" ==> Sscanf(Space(Lit('=', Space(rest))), s) == []
    ensures s != "" && s[0] == '=' ==> Sscanf(Space(Lit('=', Space(rest))), s) == Sscanf(rest, StripLeft(s[1..]))
  {
    if s != "" && s[0] == '=' {
      assert StripLeft(s) == s;
      assert Sscanf(Lit('=', Space(rest)), s) == Sscanf(Space(rest), s[1..]);
    }
  }

  lemma ScanQuoted(q: char, line: string)
    ensures var a := Sscanf(Quoted(q), line);
            match AfterEquals(line)
            case None => |a| < 2
            case Some(r) =>
              if r != "" && r[0] == q && Upto(r[1..], {q}) != "" then a == [Upto(line, {'='}), Upto(r[1..], {q})]
              else |a| < 2
  {
    ScanKey(Lit(q, Not({q}, Lit(q, End))), line);
    if AfterEquals(line).Some? && AfterEquals(line).value != "" && AfterEquals(line).value[0] == q {
      var s := AfterEquals(line).value[1..];
      var w := Upto(s, {q});
      if w != "" {
        assert Sscanf(Lit(q, End), s[|w|..]) == [];
        assert Sscanf(Not({q}, Lit(q, End)), s) == [w];
      }
    }
  }

  lemma ScanPlain(line: string)
    ensures var a := Sscanf(Plain(), line);
            match AfterEquals(line)
            case None => |a| < 2
            case Some(r) =>
              if Upto(r, {';', '#'}) != "" then a == [Upto(line, {'='}), Upto(r, {';', '#'})] else |a| < 2
  {
    ScanKey(Not({';', '#'}, End), line);
  }

  // A value that starts with `;` or `#`, or is missing, is empty.
  lemma ScanRest(line: string)
    ensures var b := ScanBare(line);
            if AfterEquals(line).Some? then |b| == 2 && b[0] == Upto(line, {'='}) else |b| < 2
  {
    ScanKey(In({';', '#'}, End), line);
    var k := Upto(line, {'='});
    UptoFacts(line, {'='});
    if AfterEquals(line).Some? {
      var s := line[|k|..];
      assert s[0] == '=' && StripLeft(s) == s && Only(s, {'='}) != "";
      assert Sscanf(Bare(), line) == [k] + Sscanf(Space(In({'='}, End)), s);
    }
  }

  // ---------------------------------------------------------------------------
  // Value lines
  // ---------------------------------------------------------------------------

  // The value read from what follows the `=`.
  function ReadValue(r: string): string {
    if r != "" && r[0] == '"' && Upto(r[1..], {'"'}) != "" then Unquote(Strip(Upto(r[1..], {'"'})))
    else if r != "" && r[0] == '\'' && Upto(r[1..], {'\''}) != "" then Unquote(Strip(Upto(r[1..], {'\''})))
    else Unquote(Strip(Upto(r, {';', '#'})))
  }

  predicate HeaderLike(line: string) {
    line != "" && line[0] == '[' && line[|line| - 1] == ']'
  }

  // A line that is neither empty nor a comment nor a header has a value exactly
  // when something precedes an `=`.
  lemma ValueLine(line: string, section: string)
    requires line != "" && line[0] != '#' && !HeaderLike(line)
    ensures ClassifyStripped(line, section) ==
            match AfterEquals(line)
            case None => Error
            case Some(r) => Value(Lower(Strip(Upto(line, {'='}))), ReadValue(r))
  {
    hide Sscanf, Upto, Strip, Lower, AfterEquals;
    ScanQuoted('"', line);
    ScanQuoted('\'', line);
    ScanPlain(line);
    ScanRest(line);
    if AfterEquals(line).Some? {
      var r := AfterEquals(line).value;
      if Upto(r, {';', '#'}) == "" {
        StripTrimmed("");
      }
    }
  }

  // What parsing leaves of a key.
  predicate Normal(k: string) {
    k != "" && Trimmed(k) && Lower(k) == k && '=' !in k
  }

  predicate KeyOk(k: string) {
    Normal(k) && k[0] != '#'
  }

  predicate ValueOk(v: string) {
    && Trimmed(v) && ';' !in v && '#' !in v
    && v != "\"\"" && v != "''"
    && (|v| > 1 && (v[0] == '"' || v[0] == '\'') ==> v[1] == v[0])
  }

  // The values that are read as they stand.
  lemma KeepsValue(v: string)
    requires Trimmed(v)
    ensures ReadValue(v) == v <==> ValueOk(v)
  {
    var x := Upto(v, {';', '#'});
    UptoFacts(v, {';', '#'});
    if |x| == |v| {
      StripTrimmed(v);
    }
  }

  // ---------------------------------------------------------------------------
  // Printed entries
  // ---------------------------------------------------------------------------

  // A key, some more blanks, the sign and the value.
  function Printed(k: string, pad: nat, v: string): string {
    k + seq(pad, _ => ' ') + " = " + v
  }

  function Padding(k: string): nat {
    if |k| < 30 then 30 - |k| else 0
  }

  // %-30s = %s
  function EntryLine(k: string, v: string): string {
    Printed(k, Padding(k), v)
  }

  // The columns of a printed entry: the key, blanks up to the thirtieth column at least,
  // the sign between blanks, and the value.
  lemma EntryColumns(k: string, v: string)
    ensures var n, line := if |k| < 30 then 30 else |k|, EntryLine(k, v);
            && |line| == n + 3 + |v| && line[..|k|] == k && line[n + 3..] == v
            && (forall i :: |k| <= i <= n ==> line[i] == ' ') && line[n + 1] == '=' && line[n + 2] == ' '
  {
    var n, line := if |k| < 30 then 30 else |k|, EntryLine(k, v);
    var h := k + seq(n - |k|, _ => ' ') + " = ";
    assert line == h + v && |h| == n + 3;
    assert h[n + 1] == '=' && h[n + 2] == ' ';
  }

  lemma StripEntry(k: string, pad: nat, v: string)
    requires k != "" && Trimmed(k) && Trimmed(v)
    ensures Strip(Printed(k, pad, v)) == k + seq(pad, _ => ' ') + " =" + if v == "" then "" else " " + v
  {
    hide Strip;
    var line := k + seq(pad, _ => ' ') + " =" + if v == "" then "" else " " + v;
    var tail := if v == "" then " " else "";
    StripIs("", line, tail);
    assert "" + line + tail == Printed(k, pad, v);
  }

  lemma KeyScan(head: string, rest: string)
    requires '=' !in head && head != ""
    ensures Upto(head + "=" + rest, {'='}) == head
    ensures AfterEquals(head + "=" + rest) == Some(StripLeft(rest))
  {
    hide Upto, StripLeft;
    var line := head + "=" + rest;
    assert line[..|head|] == head && line[|head|] == '=' && line[|head| + 1..] == rest;
    UptoIs(line, {'='}, |head|);
  }

  // What the scan patterns see in a printed entry.
  lemma EntryParts(k: string, pad: nat, v: string)
    requires k != "" && Trimmed(k) && Trimmed(v) && '=' !in k
    ensures var line := Strip(Printed(k, pad, v));
            && line != "" && line[0] == k[0] && line[|line| - 1] == (if v == "" then '=' else v[|v| - 1])
            && Strip(Upto(line, {'='})) == k && AfterEquals(line) == Some(v)
  {
    hide Upto, StripLeft, Strip, AfterEquals;
    StripEntry(k, pad, v);
    var blanks: string := seq(pad, _ => ' ') + " ";
    var gap := if v == "" then "" else " ";
    assert Strip(Printed(k, pad, v)) == k + blanks + "=" + (gap + v);
    KeyScan(k + blanks, gap + v);
    StripLeftIs(gap, v);
    StripIs("", k, blanks);
    NilLeft(k);
  }

  lemma LowerTwice(s: string)
    ensures Lower(Lower(s)) == Lower(s)
    ensures '=' in Lower(s) ==> '=' in s
    ensures Trimmed(s) ==> Trimmed(Lower(s))
  {
  }

  lemma KeysAreClean(x: string)
    requires x != "" && !IsSpace(x[0]) && '=' !in x
    ensures Normal(Lower(Strip(x)))
  {
    hide StripLeft, StripRight, Lower;
    StripKeepsFirst(x);
    StripTrims(x);
    LowerTwice(Strip(x));
    StripWithin(x, '=');
  }

  lemma StripWithin(s: string, c: char)
    ensures c in Strip(s) ==> c in s
  {
    var a, b := StripFacts(s);
    if c in Strip(s) {
      assert c in a + Strip(s) + b;
    }
  }

  // Whatever the parser yields is in normal form.
  lemma ValuesAreClean(line: string, section: string)
    requires Trimmed(line) && ClassifyStripped(line, section).Value?
    ensures var r := ClassifyStripped(line, section);
            && Normal(r.key) && Trimmed(r.value) && line[0] != '#' && !HeaderLike(line)
  {
    hide Sscanf, Upto, Strip, Lower, ReadValue, IsSpace, ScanValue, ScanBare;
    ValueLine(line, section);
    UptoFacts(line, {'='});
    KeysAreClean(Upto(line, {'='}));
    ReadTrims(AfterEquals(line).value);
  }

  lemma ValueIsNormal(line: string, section: string)
    requires Classify(line, section).Value?
    ensures var c := Classify(line, section); Normal(c.key) && Trimmed(c.value)
  {
    hide ClassifyStripped, Strip;
    StripTrims(line);
    ValuesAreClean(Strip(line), section);
  }

  lemma ReadTrims(r: string)
    ensures Trimmed(ReadValue(r))
  {
    StripTrims(Upto(r, {';', '#'}));
    if r != "" {
      StripTrims(Upto(r[1..], {'"'}));
      StripTrims(Upto(r[1..], {'\''}));
    }
  }

  lemma StripTrims(s: string)
    ensures Trimmed(Strip(s))
  {
    var a, b := StripFacts(s);
  }

  lemma StripKeepsFirst(s: string)
    requires s != "" && !IsSpace(s[0])
    ensures Strip(s) != "" && Strip(s)[0] == s[0]
  {
    StripRightFacts(s);
  }

  // What a printed entry with a key and a value as parsing leaves them is read as.
  lemma PrintedIs(k: string, pad: nat, v: string, section: string)
    requires Normal(k) && Trimmed(v)
    ensures var line := Printed(k, pad, v);
            && Strip(line) != ""
            && (HeaderLike(Strip(line)) <==> k[0] == '[' && v != "" && v[|v| - 1] == ']')
            && (if k[0] == '#' then Classify(line, section) == Comment
                else if HeaderLike(Strip(line)) then Classify(line, section).Section?
                else Classify(line, section) == Value(k, ReadValue(v)))
  {
    hide Sscanf, Upto, Strip, Lower, AfterEquals, Printed, ReadValue, IsSpace, ScanValue, ScanBare;
    EntryParts(k, pad, v);
    var line := Strip(Printed(k, pad, v));
    if k[0] != '#' && !HeaderLike(line) {
      ValueLine(line, section);
    }
  }

  // A printed entry reads back as itself exactly when its key and its value are
  // in normal form and the line does not look like a section header.
  lemma EntryReadsBack(k: string, pad: nat, v: string, section: string)
    ensures Classify(Printed(k, pad, v), section) == Value(k, v) <==>
            KeyOk(k) && ValueOk(v) && !(k[0] == '[' && v != "" && v[|v| - 1] == ']')
  {
    hide Sscanf, Upto, Strip, Lower, AfterEquals, Printed, ReadValue, IsSpace, ScanValue, ScanBare;
    var line := Strip(Printed(k, pad, v));
    StripTrims(Printed(k, pad, v));
    if Classify(Printed(k, pad, v), section) == Value(k, v) {
      ValuesAreClean(line, section);
    }
    if k != "" && Trimmed(k) && Trimmed(v) && '=' !in k {
      EntryParts(k, pad, v);
      KeepsValue(v);
      if line[0] != '#' && !HeaderLike(line) {
        ValueLine(line, section);
      }
    }
  }

  // ---------------------------------------------------------------------------
  // Printed section headers
  // ---------------------------------------------------------------------------

  predicate NameOk(s: string) {
    s != "" && Trimmed(s) && Lower(s) == s && ']' !in s
  }

  // A printed header reads back as itself exactly when the name is in normal form;
  // an empty name stands for the name that is already there.
  lemma HeaderReadsBack(s: string, section: string)
    requires ']' !in section
    ensures Classify("[" + s + "]", section) == Section(s) <==>
            NameOk(s) || (s == "" && Strip(section) == "")
  {
    var line := "[" + s + "]";
    StripTrimmed(line);
    var x := Upto(line[1..], {']'});
    UptoFacts(line[1..], {']'});
    assert line[1..] == s + "]";
    HeaderScan(line);
    StripTrims(if x == "" then section else x);
    LowerTwice(Strip(if x == "" then section else x));
    if ']' !in s {
      UptoIs(line[1..], {']'}, |s|);
      assert x == s;
      if Trimmed(s) {
        StripTrimmed(s);
      }
    } else {
      NoBracket(if x == "" then section else x);
    }
  }

  lemma HeaderScan(line: string)
    requires line != "" && line[0] == '['
    ensures var x := Upto(line[1..], {']'});
            Sscanf(Header(), line) == if x == "" then [] else [x]
  {
    var x := Upto(line[1..], {']'});
    if x != "" {
      assert Sscanf(Not({']'}, End), line[1..]) == [x];
    }
  }

  lemma NoBracket(s: string)
    ensures ']' in Lower(Strip(s)) ==> ']' in s
  {
    StripWithin(s, ']');
    var t := Lower(Strip(s));
    if ']' in t {
      var i :| 0 <= i < |t| && t[i] == ']';
      assert Strip(s)[i] == ']';
    }
  }
}
