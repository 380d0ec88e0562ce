// Where the characters of a loaded dictionary come from.

module IniWithin {
  import opened IniLine
  import opened IniEntry
  import opened IniLoad

  // No upper-case letter becomes `c`.
  predicate Caseless(c: char) {
    !('a' <= c <= 'z')
  }

  lemma {:induction false} ScanWithin(p: Pattern, s: string, c: char)
    requires c !in s
    ensures forall x :: x in Sscanf(p, s) ==> c !in x
    decreases p
  {
    hide Upto, Only, StripLeft;
    match p
    case End =>
    case Space(rest) =>
      StripLeftFacts(s);
      ScanWithin(rest, StripLeft(s), c);
    case Lit(d, rest) =>
      if s != "" && s[0] == d { ScanWithin(rest, s[1..], c); }
    case Not(stop, rest) =>
      UptoFacts(s, stop);
      ScanWithin(rest, s[|Upto(s, stop)|..], c);
    case In(some, rest) =>
      OnlyFacts(s, some);
      ScanWithin(rest, s[|Only(s, some)|..], c);
  }

  lemma {:induction false} OnlyFacts(s: string, some: set<char>)
    ensures Only(s, some) == s[..|Only(s, some)|]
  {
    if s != "" && s[0] in some {
      OnlyFacts(s[1..], some);
    }
  }

  lemma LowerWithin(s: string, c: char)
    requires Caseless(c)
    ensures c in Lower(s) ==> c in s
  {
    if c in Lower(s) {
      var i :| 0 <= i < |s| && Lower(s)[i] == c;
      assert s[i] == c;
    }
  }

  lemma NameWithin(s: string, c: char)
    requires Caseless(c)
    ensures c in Lower(Strip(s)) ==> c in s
  {
    LowerWithin(Strip(s), c);
    StripWithin(s, c);
  }

  // A line gives no character to a key, a value or a name that it does not have.
  lemma ClassifyWithin(line: string, section: string, c: char)
    requires Caseless(c) && c !in line && c !in section
    ensures match Classify(line, section)
            case Section(name) => c !in name
            case Value(key, value) => c !in key && c !in value
            case _ => true
  {
    hide Sscanf, Upto, Strip, Lower, Unquote;
    var l := Strip(line);
    StripWithin(line, c);
    ScanWithin(Header(), l, c);
    ScanWithin(Quoted('"'), l, c);
    ScanWithin(Quoted('\''), l, c);
    ScanWithin(Plain(), l, c);
    ScanWithin(Remark(), l, c);
    ScanWithin(Bare(), l, c);
    NameWithin(section, c);
    forall x | x in Sscanf(Header(), l) || x in ScanValue(l) || x in ScanBare(l)
      ensures c !in Lower(Strip(x)) && c !in Unquote(Strip(x))
    {
      NameWithin(x, c);
      StripWithin(x, c);
      UnquoteWithin(Strip(x), c);
    }
  }

  lemma UnquoteWithin(s: string, c: char)
    ensures c in Unquote(s) ==> c in s
  {
  }

  // No name has a bracket.
  lemma NamesHaveNoBracket(line: string, section: string)
    requires Classify(line, section).Section? && ']' !in section
    ensures ']' !in Classify(line, section).name
  {
    hide Sscanf, Lower, Upto;
    var l := Strip(line);
    HeaderScan(l);
    UptoFacts(l[1..], {']'});
    NameWithin(section, ']');
    NameWithin(Upto(l[1..], {']'}), ']');
  }

  // ---------------------------------------------------------------------------
  // Whole dictionaries
  // ---------------------------------------------------------------------------

  ghost predicate Without(e: Entries, c: char) {
    forall k :: k in e ==> c !in k && (e[k].Some? ==> c !in e[k].value)
  }

  lemma ApplyWithin(st: Store, line: string, c: char)
    requires Caseless(c) && c != ':' && c !in line && c !in st.section && Without(st.entries, c)
    ensures Without(Apply(st, line).entries, c) && c !in Apply(st, line).section
  {
    hide Classify;
    ClassifyWithin(line, st.section, c);
  }

  lemma {:induction false} FoldWithin(st: Store, lines: seq<string>, c: char)
    requires Caseless(c) && c != ':' && (forall l :: l in lines ==> c !in l)
    requires c !in st.section && Without(st.entries, c)
    ensures Without(Fold(st, lines).entries, c)
    decreases lines
  {
    hide Apply, Without, Caseless;
    if lines != [] {
      ApplyWithin(st, lines[0], c);
      FoldWithin(Apply(st, lines[0]), lines[1..], c);
    }
  }

  // A logical line has no line break inside.
  lemma {:induction false} LogicalLinesBreak(text: string, carry: string)
    requires |carry| < ASCIILINESZ - 2 && '\n' !in carry
    ensures LogicalLines(text, carry).Some? ==> forall l :: l in LogicalLines(text, carry).value ==> '\n' !in l
    decreases |text|
  {
    hide StripRight, Fgets, CString;
    if text != "" {
      var chunk := Fgets(text, ASCIILINESZ - |carry| - 1);
      var line := CString(carry + chunk);
      if line != "" && line[|line| - 1] == '\n' {
        var t := StripRight(line);
        OneBreak(text, carry);
        LoadStep(text, carry, Start());
        if Continues(t) {
          LogicalLinesBreak(text[|chunk|..], t[..|t| - 1]);
        } else {
          LogicalLinesBreak(text[|chunk|..], "");
        }
      }
    }
  }

  lemma OneBreak(text: string, carry: string)
    requires |carry| < ASCIILINESZ - 2 && '\n' !in carry
    ensures '\n' !in StripRight(CString(carry + Fgets(text, ASCIILINESZ - |carry| - 1)))
  {
    hide StripRight, Upto;
    var chunk := Fgets(text, ASCIILINESZ - |carry| - 1);
    var line := carry + chunk;
    var s := CString(line);
    UptoFacts(text, {'\n'});
    UptoFacts(line, {'\0'});
    assert forall i :: 0 <= i < |line| - 1 ==> line[i] != '\n';
    StripRightFacts(s);
    if StripRight(s) == s && s != "" {
      assert !IsSpace(s[|s| - 1]);
    }
  }

  // A loaded dictionary has no line break anywhere.
  lemma LoadedHasNoBreak(text: string)
    ensures Load(text).Some? ==> Without(Load(text).value, '\n')
  {
    hide Fold, LogicalLines, Without;
    LogicalLinesBreak(text, "");
    Nothing('\n');
    if LogicalLines(text, "").Some? {
      FoldWithin(Start(), LogicalLines(text, "").value, '\n');
    }
  }

  lemma Nothing(c: char)
    ensures Without(map[], c)
  {
  }

  // A line adds at most one key.
  lemma {:induction false} FoldCount(st: Store, lines: seq<string>)
    ensures |Fold(st, lines).entries| <= |st.entries| + |lines|
    decreases lines
  {
    hide Classify;
    if lines != [] {
      FoldCount(Apply(st, lines[0]), lines[1..]);
    }
  }
}
