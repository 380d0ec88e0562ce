// The two loaders of INI text: one reads a file line by line, the other a memory
// buffer. Both fold classified lines into a dictionary.

module IniLoad {
  import opened Bytes
  import opened IniLine
  import opened IniOrder
  import Dictionary

  // ---------------------------------------------------------------------------
  // The fold
  // ---------------------------------------------------------------------------

  type Entries = map<string, Option<string>>

  datatype Store = Store(entries: Entries, section: string, errs: nat)

  function Start(): Store { Store(map[], "", 0) }

  // One logical line. A section or value line overwrites the error count.
  function Apply(st: Store, line: string): Store {
    match Classify(line, st.section)
    case Empty | Comment => st
    case Section(name) => Store(st.entries[name := None], name, 0)
    case Value(key, value) => Store(st.entries[st.section + ":" + key := Some(value)], st.section, 0)
    case Error => st.(errs := st.errs + 1)
  }

  function Fold(st: Store, lines: seq<string>): Store
    decreases lines
  {
    if lines == [] then st else Fold(Apply(st, lines[0]), lines[1..])
  }

  lemma {:induction false} FoldConcat(st: Store, a: seq<string>, b: seq<string>)
    ensures Fold(st, a + b) == Fold(Fold(st, a), b)
    decreases a
  {
    if a == [] {
      NilLeft(b);
    } else {
      assert (a + b)[0] == a[0] && (a + b)[1..] == a[1..] + b;
      FoldConcat(Apply(st, a[0]), a[1..], b);
    }
  }

  lemma FoldNone(st: Store)
    ensures Fold(st, []) == st
  {
  }

  lemma FoldSnoc(st: Store, a: seq<string>, l: string)
    ensures Fold(st, a + [l]) == Apply(Fold(st, a), l)
  {
    hide Apply;
    FoldConcat(st, a, [l]);
    assert [l][1..] == [];
  }

  lemma FoldNext(st: Store, a: seq<string>, n: nat)
    requires n < |a|
    ensures Fold(st, a[..n + 1]) == Apply(Fold(st, a[..n]), a[n])
  {
    hide Apply, Fold;
    assert a[..n + 1] == a[..n] + [a[n]];
    FoldSnoc(st, a[..n], a[n]);
  }

  // A dictionary comes back only when the error count is zero at the end.
  function Finish(st: Store): Option<Entries> {
    if st.errs > 0 then None else Some(st.entries)
  }

  predicate Stores(line: string) {
    Classify(line, "").Section? || Classify(line, "").Value?
  }

  // An error is an error in every section.
  lemma KindIgnoresSection(line: string, section: string)
    ensures Classify(line, section).Section? == Classify(line, "").Section?
    ensures Classify(line, section).Error? == Classify(line, "").Error?
    ensures (Classify(line, section).Section? || Classify(line, section).Value?) == Stores(line)
  {
    hide Sscanf, Strip, Lower, ScanValue, ScanBare, Unquote;
  }

  // Only the syntax errors behind the last section or value line make loading fail.
  lemma {:induction false} LateErrorsCount(lines: seq<string>)
    ensures Finish(Fold(Start(), lines)).None? <==>
            exists i :: 0 <= i < |lines| && Classify(lines[i], "").Error?
                        && forall j :: i < j < |lines| ==> !Stores(lines[j])
  {
    hide Classify, Stores;
    if lines != [] {
      var m := |lines| - 1;
      var init := lines[..m];
      var st := Fold(Start(), init);
      LateErrorsCount(init);
      assert lines == init + [lines[m]];
      FoldConcat(Start(), init, [lines[m]]);
      KindIgnoresSection(lines[m], st.section);
      KindIgnoresSection(lines[m], "");
      if st.errs > 0 {
        var i :| 0 <= i < m && Classify(init[i], "").Error? && forall j :: i < j < m ==> !Stores(init[j]);
        assert Classify(lines[i], "").Error?;
      }
    }
  }

  // ---------------------------------------------------------------------------
  // iniparser_load
  // ---------------------------------------------------------------------------

  // fgets with room for n characters: up to and with the next end of line.
  function Fgets(text: string, n: nat): (r: string)
    ensures |r| <= n && |r| <= |text|
    ensures n > 0 && text != "" ==> r != ""
  {
    var k := |Upto(text, {'\n'})|;
    if k < n && k < |text| then text[..k + 1] else text[..Min(n, |text|)]
  }

  // The C string in a buffer.
  function CString(buf: string): (s: string)
    ensures |s| <= |buf|
  {
    Upto(buf, {'\0'})
  }

  predicate Continues(t: string) {
    t != "" && t[|t| - 1] == '\\'
  }

  // The logical lines of a text, without the blanks behind them and with
  // continuations joined; none if a line does not fit or does not end. `carry` is
  // what earlier physical lines left in the buffer.
  function LogicalLines(text: string, carry: string): Option<seq<string>>
    requires |carry| < ASCIILINESZ - 2
    decreases |text|
  {
    if text == "" then Some([]) else
    var chunk := Fgets(text, ASCIILINESZ - |carry| - 1);
    var rest, line := text[|chunk|..], CString(carry + chunk);
    if line == "" || line[|line| - 1] != '\n' then None else
    var t := StripRight(line);
    if Continues(t) then LogicalLines(rest, t[..|t| - 1])
    else match LogicalLines(rest, "")
      case None => None
      case Some(lines) => Some([t] + lines)
  }

  // What loading yields from a given point.
  function Outcome(text: string, carry: string, st: Store): Option<Entries>
    requires |carry| < ASCIILINESZ - 2
  {
    match LogicalLines(text, carry)
    case None => None
    case Some(lines) => Finish(Fold(st, lines))
  }

  function Load(text: string): Option<Entries> {
    Outcome(text, "", Start())
  }

  // The order of the keys from a given point, and that of the keys of a text.
  function OrderOutcome(text: string, carry: string, section: string, order: seq<string>): Option<seq<string>>
    requires |carry| < ASCIILINESZ - 2
  {
    match LogicalLines(text, carry)
    case None => None
    case Some(lines) => Some(AddAll(order, StoredKeys(section, lines)))
  }

  function LoadOrder(text: string): Option<seq<string>> {
    OrderOutcome(text, "", "", [])
  }

  lemma NamesAreShort(input: string, section: string)
    ensures Classify(input, section).Section? ==>
              |Classify(input, section).name| <= |input| || |Classify(input, section).name| <= |section|
  {
    hide Sscanf, Lower, ScanValue, ScanBare, Unquote;
    ScanIsShort(Header(), Strip(input));
  }

  // The switch on the kind of line: the dictionary, the section buffer and the
  // error count afterwards.
  method Switch(dict: Dictionary.Table, line: string, section: string, errs: nat, ghost order: seq<string>)
    returns (section': string, errs': nat)
    requires dict.Valid() && |line| < ASCIILINESZ && |section| < ASCIILINESZ && Lined(dict.key[..], order)
    modifies dict, dict.key, dict.val, dict.hash
    ensures dict.Valid() && |section'| < ASCIILINESZ
    ensures (dict.key == old(dict.key) && dict.val == old(dict.val) && dict.hash == old(dict.hash))
         || (fresh(dict.key) && fresh(dict.val) && fresh(dict.hash))
    ensures Store(dict.M, section', errs') == Apply(Store(old(dict.M), section, errs), line)
    ensures Lined(dict.key[..], AddStored(order, line, section)) && section' == SectionAfter(line, section)
  {
    hide Classify, dict.Valid, Lined, Added;
    NamesAreShort(line, section);
    section', errs' := section, errs;
    var sta := IniparserLine(line, section);
    match sta
    case Empty | Comment =>
    case Section(name) =>
      section', errs' := name, 0;
      SetLined(dict, name, None, order);
    case Value(key, value) =>
      errs' := 0;
      SetLined(dict, section + ":" + key, Some(value), order);
    case Error =>
      errs' := errs + 1;
  }

  // iniparser_load on the contents of a file.
  method IniparserLoad(text: string, hashOf: string -> nat) returns (dict: Dictionary.Table?)
    ensures dict == null <==> Load(text).None?
    ensures dict != null ==> fresh(dict) && dict.Valid() && Some(dict.M) == Load(text)
    ensures dict != null ==> LoadOrder(text).Some? && Lined(dict.key[..], LoadOrder(text).value)
  {
    hide Fold, Apply, dict.Valid, LogicalLines, Fgets, Lined, AddStored, SectionAfter, OrderOutcome;
    var d := new Dictionary.Table(0, hashOf);
    var rest, carry, section, errs := text, "", "", 0;
    ghost var order: seq<string> := [];
    LinedNone(d.key[..]);
    while rest != ""
      invariant fresh(d) && fresh(d.key) && fresh(d.val) && fresh(d.hash) && d.Valid()
      invariant |carry| < ASCIILINESZ - 2 && |section| < ASCIILINESZ
      invariant Load(text) == Outcome(rest, carry, Store(d.M, section, errs))
      invariant Lined(d.key[..], order) && LoadOrder(text) == OrderOutcome(rest, carry, section, order)
      decreases |rest|
    {
      var chunk := Fgets(rest, ASCIILINESZ - |carry| - 1);
      var line := CString(carry + chunk);
      LoadStep(rest, carry, Store(d.M, section, errs));
      OrderStep(rest, carry, section, order);
      if line == "" || line[|line| - 1] != '\n' {
        return null;
      }
      rest := rest[|chunk|..];
      line := CutBlanks(line);
      if Continues(line) {
        carry := line[..|line| - 1];
      } else {
        carry := "";
        ghost var next := AddStored(order, line, section);
        section, errs := Switch(d, line, section, errs, order);
        order := next;
      }
    }
    AtEnd(carry, Store(d.M, section, errs));
    OrderAtEnd(carry, section, order);
    if errs > 0 {
      return null;
    }
    return d;
  }

  lemma AtEnd(carry: string, st: Store)
    requires |carry| < ASCIILINESZ - 2
    ensures Outcome("", carry, st) == Finish(st)
  {
  }

  lemma OrderAtEnd(carry: string, section: string, order: seq<string>)
    requires |carry| < ASCIILINESZ - 2
    ensures OrderOutcome("", carry, section, order) == Some(order)
  {
  }

  // What a round of the loop does to the order.
  lemma OrderStep(text: string, carry: string, section: string, order: seq<string>)
    requires text != "" && |carry| < ASCIILINESZ - 2
    ensures var chunk := Fgets(text, ASCIILINESZ - |carry| - 1);
            var line := CString(carry + chunk);
            && (line == "" || line[|line| - 1] != '\n' ==> OrderOutcome(text, carry, section, order) == None)
            && (line != "" && line[|line| - 1] == '\n' ==>
                  var t := StripRight(line);
                  && |t| < |line| < ASCIILINESZ
                  && OrderOutcome(text, carry, section, order) ==
                     if Continues(t) then OrderOutcome(text[|chunk|..], t[..|t| - 1], section, order)
                     else OrderOutcome(text[|chunk|..], "", SectionAfter(t, section), AddStored(order, t, section)))
  {
    hide AddAll, StoredKeys, CString, AddStored, SectionAfter;
    LoadStep(text, carry, Start());
    var chunk := Fgets(text, ASCIILINESZ - |carry| - 1);
    var line := CString(carry + chunk);
    if line != "" && line[|line| - 1] == '\n' {
      var t := StripRight(line);
      if !Continues(t) && LogicalLines(text[|chunk|..], "").Some? {
        StoredStep(order, section, t, LogicalLines(text[|chunk|..], "").value);
      }
    }
  }

  // One round of the loader's loop.
  lemma LoadStep(text: string, carry: string, st: Store)
    requires text != "" && |carry| < ASCIILINESZ - 2
    ensures var chunk := Fgets(text, ASCIILINESZ - |carry| - 1);
            var line := CString(carry + chunk);
            && chunk != ""
            && if line == "" || line[|line| - 1] != '\n' then Outcome(text, carry, st) == None else
               var t := StripRight(line);
               && |t| < |line| < ASCIILINESZ
               && Outcome(text, carry, st) ==
                  if Continues(t) then Outcome(text[|chunk|..], t[..|t| - 1], st)
                  else Outcome(text[|chunk|..], "", Apply(st, t))
  {
    hide Classify, Apply, CString;
    var chunk := Fgets(text, ASCIILINESZ - |carry| - 1);
    var line := CString(carry + chunk);
    if line != "" && line[|line| - 1] == '\n' {
      var t := StripRight(line);
      if !Continues(t) && LogicalLines(text[|chunk|..], "").Some? {
        var lines := LogicalLines(text[|chunk|..], "").value;
        assert ([t] + lines)[1..] == lines;
      }
    }
  }

  // ---------------------------------------------------------------------------
  // Well-behaved text
  // ---------------------------------------------------------------------------

  function Text(lines: seq<string>): string {
    if lines == [] then "" else lines[0] + "\n" + Text(lines[1..])
  }

  // One physical line that fits the buffer with its LF.
  predicate Short(l: string) {
    |l| < ASCIILINESZ - 1 && '\n' !in l && '\0' !in l
  }

  // It is not continued either.
  predicate Fits(l: string) {
    Short(l) && !Continues(StripRight(l))
  }

  function TrimAll(lines: seq<string>): seq<string> {
    if lines == [] then [] else [StripRight(lines[0])] + TrimAll(lines[1..])
  }

  lemma FgetsLine(l: string, rest: string, n: nat)
    requires '\n' !in l
    ensures var text := l + "\n" + rest;
            Fgets(text, n) == (if |l| < n then l + "\n" else l[..n]) && text[|l| + 1..] == rest && text != ""
  {
    hide Upto;
    var text, e := l + "\n" + rest, |l| + 1;
    UptoIs(text, {'\n'}, |l|);
    assert text[..e] == l + "\n" && text[e..] == rest;
    if n <= |l| {
      assert text[..n] == l[..n];
    }
  }

  lemma DropEnd(l: string)
    ensures StripRight(l + "\n") == StripRight(l)
  {
    hide StripRight;
    assert (l + "\n")[..|l|] == l && (l + "\n")[..|l| + 1] == l + "\n";
    StripRightStep(l + "\n", |l| + 1);
  }

  // A physical line behind what is in the buffer, if it ends: it is read if both fit
  // and have no zero, and makes loading fail otherwise.
  lemma LogicalStep(l: string, rest: string, carry: string)
    requires '\n' !in l && '\n' !in carry && |carry| < ASCIILINESZ - 2
    ensures var t := StripRight(carry + l);
            if |carry| + |l| < ASCIILINESZ - 1 && '\0' !in carry + l then
              && |t| < ASCIILINESZ - 1
              && LogicalLines(l + "\n" + rest, carry) ==
                 if Continues(t) then LogicalLines(rest, t[..|t| - 1])
                 else match LogicalLines(rest, "")
                   case None => None
                   case Some(lines) => Some([t] + lines)
            else LogicalLines(l + "\n" + rest, carry) == None
  {
    hide StripRight, Fgets, CString;
    var text, n := l + "\n" + rest, ASCIILINESZ - |carry| - 1;
    FgetsLine(l, rest, n);
    DropEnd(carry + l);
    assert carry + l + "\n" == carry + (l + "\n");
    WholeLine(carry + l);
    PartLine(carry + (if |l| < n then l + "\n" else l[..n]));
    assert |l| >= n ==> '\n' !in carry + l[..n];
  }

  lemma WholeLine(l: string)
    ensures '\0' !in l ==> CString(l + "\n") == l + "\n"
    ensures '\0' in l && '\n' !in l ==> var s := CString(l + "\n"); s == "" || s[|s| - 1] != '\n'
  {
    UptoFacts(l + "\n", {'\0'});
    var s := CString(l + "\n");
    if |s| < |l| + 1 {
      assert (l + "\n")[|s|] == '\0';
    }
    if '\0' in l {
      var i :| 0 <= i < |l| && l[i] == '\0';
      assert (l + "\n")[i] == '\0';
    }
  }

  lemma PartLine(l: string)
    ensures '\n' !in l ==> var s := CString(l); s == "" || s[|s| - 1] != '\n'
  {
    UptoFacts(l, {'\0'});
  }

  lemma {:induction false} ReadsLines(lines: seq<string>)
    requires forall l :: l in lines ==> Fits(l)
    ensures LogicalLines(Text(lines), "") == Some(TrimAll(lines))
  {
    hide StripRight, LogicalLines;
    if lines != [] {
      assert Fits(lines[0]);
      LogicalStep(lines[0], Text(lines[1..]), "");
      NilLeft(lines[0]);
      ReadsLines(lines[1..]);
    } else {
      NoLines("");
    }
  }

  lemma NoLines(carry: string)
    requires |carry| < ASCIILINESZ - 2
    ensures LogicalLines("", carry) == Some([])
  {
  }

  // A last line without its LF makes loading fail.
  lemma UnendedLine(l: string, carry: string)
    requires l != "" && '\n' !in l && '\n' !in carry && |carry| < ASCIILINESZ - 2
    ensures LogicalLines(l, carry) == None
  {
    hide CString, Fgets;
    var n := ASCIILINESZ - |carry| - 1;
    FgetsPart(l, n);
    PartLine(carry + Fgets(l, n));
  }

  lemma FgetsPart(l: string, n: nat)
    requires '\n' !in l
    ensures '\n' !in Fgets(l, n)
  {
    hide Upto;
  }

  // A last line that is continued is lost, without an error.
  lemma ContinuedLastLine(l: string)
    requires Short(l) && Continues(StripRight(l))
    ensures LogicalLines(l + "\n", "") == Some([])
  {
    hide LogicalLines, StripRight;
    LogicalStep(l, "", "");
    NilLeft(l);
    assert l + "\n" + "" == l + "\n";
    NoLines(StripRight(l)[..|StripRight(l)| - 1]);
  }

  lemma TrimAllFacts(lines: seq<string>)
    ensures |TrimAll(lines)| == |lines|
  {
  }

  lemma StripRightWithin(s: string, c: char)
    ensures c !in s ==> c !in StripRight(s)
  {
    StripRightFacts(s);
  }

  // There are at most as many logical as physical lines, and as many only if all
  // lines fit and none is continued; then they are the same but for trimming.
  lemma {:induction false} LinesCount(lines: seq<string>, carry: string)
    requires (forall l :: l in lines ==> '\n' !in l) && '\n' !in carry && |carry| < ASCIILINESZ - 2
    ensures match LogicalLines(Text(lines), carry)
            case None => true
            case Some(ls) =>
              && |ls| <= |lines|
              && (carry == "" && |ls| == |lines| ==> ls == TrimAll(lines) && forall l :: l in lines ==> Fits(l))
    decreases lines
  {
    hide LogicalLines, StripRight;
    if lines == [] {
      NoLines(carry);
    } else {
      var l, more := lines[0], lines[1..];
      LogicalStep(l, Text(more), carry);
      var t := StripRight(carry + l);
      if |carry| + |l| < ASCIILINESZ - 1 && '\0' !in carry + l {
        if Continues(t) {
          StripRightWithin(carry + l, '\n');
          LinesCount(more, t[..|t| - 1]);
        } else {
          LinesCount(more, "");
          NilLeft(l);
        }
      }
    }
  }

  // The loader sees the lines as they stand, but for trimming, exactly if all of them
  // fit, have no zero, and do not end in a backslash once trimmed.
  lemma SeenAsTheyStand(lines: seq<string>)
    requires forall l :: l in lines ==> '\n' !in l
    ensures LogicalLines(Text(lines), "") == Some(TrimAll(lines)) <==> forall l :: l in lines ==> Fits(l)
  {
    hide LogicalLines, StripRight, Fits;
    if LogicalLines(Text(lines), "") == Some(TrimAll(lines)) {
      LinesCount(lines, "");
      TrimAllFacts(lines);
    }
    if forall l :: l in lines ==> Fits(l) {
      ReadsLines(lines);
    }
  }

  // One line that does not fit, or has a zero, makes loading fail.
  lemma {:induction false} LongLineFails(lines: seq<string>, carry: string, i: nat)
    requires i < |lines| && !Short(lines[i]) && forall l :: l in lines ==> '\n' !in l
    requires '\n' !in carry && |carry| < ASCIILINESZ - 2
    ensures LogicalLines(Text(lines), carry) == None
    decreases lines
  {
    hide LogicalLines, StripRight;
    var l, more := lines[0], lines[1..];
    LogicalStep(l, Text(more), carry);
    var t := StripRight(carry + l);
    if |carry| + |l| < ASCIILINESZ - 1 && '\0' !in carry + l {
      StripRightWithin(carry + l, '\n');
      assert i > 0 && more[i - 1] == lines[i];
      LongLineFails(more, if Continues(t) then t[..|t| - 1] else "", i - 1);
    }
  }

  // Blanks behind a line make no difference to its classification.
  lemma TailIgnored(t: string, c: string)
    requires AllSpace(c)
    ensures Strip(t + c) == Strip(t)
  {
    hide StripLeft, StripRight, IsSpace;
    var a, b := StripFacts(t);
    assert t + c == a + Strip(t) + (b + c);
    StripIs(a, Strip(t), b + c);
  }

  lemma ApplyTrimmed(st: Store, l: string)
    ensures Apply(st, StripRight(l)) == Apply(st, l)
  {
    hide ClassifyStripped, Strip, StripRight, IsSpace;
    var t := StripRight(l);
    StripRightFacts(l);
    assert t + l[|t|..] == l;
    TailIgnored(t, l[|t|..]);
  }

  lemma {:induction false} FoldTrimmed(st: Store, lines: seq<string>)
    ensures Fold(st, TrimAll(lines)) == Fold(st, lines)
    decreases lines
  {
    hide Apply, StripRight;
    if lines != [] {
      ApplyTrimmed(st, lines[0]);
      assert TrimAll(lines)[1..] == TrimAll(lines[1..]);
      FoldTrimmed(Apply(st, lines[0]), lines[1..]);
    }
  }

  // On well-behaved text the file loader folds the lines as they stand.
  lemma LoadsLines(lines: seq<string>)
    requires forall l :: l in lines ==> Fits(l)
    ensures Load(Text(lines)) == Finish(Fold(Start(), lines))
  {
    hide Fits, Apply;
    ReadsLines(lines);
    FoldTrimmed(Start(), lines);
  }
}
