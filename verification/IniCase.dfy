// Upper and lower case: what is loaded has no upper-case letter in keys and names, and
// their case in the text makes no difference.

module IniCase {
  import opened Bytes
  import opened IniLine
  import opened IniEntry
  import opened IniLoad

  predicate Upper(c: char) {
    65 <= c as int <= 90
  }

  predicate NoUpper(s: string) {
    forall i :: 0 <= i < |s| ==> !Upper(s[i])
  }

  // Lower-casing adds 32 to the codes 65 to 90 and leaves all others alone.
  lemma LowerIs(s: string)
    ensures |Lower(s)| == |s| && NoUpper(Lower(s))
    ensures forall i :: 0 <= i < |s| ==>
              Lower(s)[i] as int == if 65 <= s[i] as int <= 90 then s[i] as int + 32 else s[i] as int
  {
  }

  // No name and no key has an upper-case letter.
  lemma ClassifyLowers(line: string, section: string)
    ensures match Classify(line, section)
            case Section(name) => NoUpper(name)
            case Value(key, value) => NoUpper(key)
            case _ => true
  {
    hide Sscanf, Strip, Lower, ScanValue, ScanBare, Unquote, NoUpper;
    forall s ensures NoUpper(Lower(s)) {
      LowerIs(s);
    }
  }

  ghost predicate KeysLower(e: Entries) {
    forall k :: k in e ==> NoUpper(k)
  }

  lemma LowerStep(st: Store, line: string)
    requires NoUpper(st.section) && KeysLower(st.entries)
    ensures NoUpper(Apply(st, line).section) && KeysLower(Apply(st, line).entries)
  {
    hide Classify;
    ClassifyLowers(line, st.section);
  }

  lemma {:induction false} LowerFold(st: Store, lines: seq<string>)
    requires NoUpper(st.section) && KeysLower(st.entries)
    ensures KeysLower(Fold(st, lines).entries)
    decreases lines
  {
    hide Apply, NoUpper, KeysLower;
    if lines != [] {
      LowerStep(st, lines[0]);
      LowerFold(Apply(st, lines[0]), lines[1..]);
    }
  }

  // No key of a loaded dictionary has an upper-case letter.
  lemma LoadLowers(text: string)
    ensures Load(text).Some? ==> KeysLower(Load(text).value)
  {
    hide Fold, LogicalLines;
    match LogicalLines(text, "")
    case None =>
    case Some(ls) => LowerFold(Start(), ls);
  }

  // ---------------------------------------------------------------------------
  // Case makes no difference
  // ---------------------------------------------------------------------------

  // The same character, but for the case of a letter.
  predicate SameChar(c: char, d: char) {
    c == d || (Upper(c) && d as int == c as int + 32) || (Upper(d) && c as int == d as int + 32)
  }

  predicate SameLetters(a: string, b: string) {
    |a| == |b| && forall i :: 0 <= i < |a| ==> SameChar(a[i], b[i])
  }

  lemma SameKind(c: char, d: char)
    requires SameChar(c, d)
    ensures ToLower(c) == ToLower(d) && (IsSpace(c) <==> IsSpace(d))
    ensures forall x :: !Upper(x) && !(97 <= x as int <= 122) ==> (c == x <==> d == x)
  {
  }

  lemma SameLower(a: string, b: string)
    requires SameLetters(a, b)
    ensures Lower(a) == Lower(b)
  {
    hide Lower;
    forall i | 0 <= i < |a| ensures Lower(a)[i] == Lower(b)[i] {
      SameKind(a[i], b[i]);
    }
  }

  lemma SameSlice(a: string, b: string, i: nat, j: nat)
    requires SameLetters(a, b) && i <= j <= |a|
    ensures SameLetters(a[i..j], b[i..j]) && SameLetters(a[i..], b[i..]) && SameLetters(a[..j], b[..j])
  {
    hide SameChar;
  }

  lemma {:induction false} SameUpto(a: string, b: string, stop: set<char>)
    requires SameLetters(a, b) && forall x :: x in stop ==> !Upper(x) && !(97 <= x as int <= 122)
    ensures |Upto(a, stop)| == |Upto(b, stop)| && SameLetters(Upto(a, stop), Upto(b, stop))
    decreases |a|
  {
    if a != [] {
      SameKind(a[0], b[0]);
      SameSlice(a, b, 1, |a|);
      SameUpto(a[1..], b[1..], stop);
    }
  }

  lemma {:induction false} SameStripLeft(a: string, b: string)
    requires SameLetters(a, b)
    ensures |StripLeft(a)| == |StripLeft(b)| && SameLetters(StripLeft(a), StripLeft(b))
    decreases |a|
  {
    hide IsSpace;
    if a != [] {
      SameKind(a[0], b[0]);
      SameSlice(a, b, 1, |a|);
      SameStripLeft(a[1..], b[1..]);
    }
  }

  lemma {:induction false} SameStripRight(a: string, b: string)
    requires SameLetters(a, b)
    ensures |StripRight(a)| == |StripRight(b)| && SameLetters(StripRight(a), StripRight(b))
    decreases |a|
  {
    hide IsSpace;
    if a != [] {
      var n := |a| - 1;
      SameKind(a[n], b[n]);
      SameSlice(a, b, 0, n);
      SameStripRight(a[..n], b[..n]);
    }
  }

  lemma SameStrip(a: string, b: string)
    requires SameLetters(a, b)
    ensures |Strip(a)| == |Strip(b)| && SameLetters(Strip(a), Strip(b)) && Lower(Strip(a)) == Lower(Strip(b))
  {
    hide SameChar, StripLeft, StripRight, Lower;
    SameStripLeft(a, b);
    SameStripRight(StripLeft(a), StripLeft(b));
    SameLower(Strip(a), Strip(b));
  }

  // Two lines that differ only in the case of letters, and if they are no headers only in
  // front of the first equals sign.
  predicate SameLine(a: string, b: string) {
    SameLetters(a, b) && (HeaderLike(Strip(a)) || a[|Upto(a, {'='})|..] == b[|Upto(a, {'='})|..])
  }

  lemma SameHeader(a: string, b: string)
    requires SameLetters(a, b)
    ensures a == "" <==> b == ""
    ensures a != "" ==> (a[0] == '#' <==> b[0] == '#')
    ensures HeaderLike(a) <==> HeaderLike(b)
  {
    if a != "" {
      SameKind(a[0], b[0]);
      SameKind(a[|a| - 1], b[|a| - 1]);
    }
  }

  // Where the first equals sign of a stripped line stands in the whole line.
  lemma SignAt(a: string)
    ensures var s, i := Strip(a), |a| - |StripLeft(a)|;
            var n := |Upto(s, {'='})|;
            && n <= |s| && i + |s| <= |a| && s == a[i..i + |s|]
            && (n < |s| ==> |Upto(a, {'='})| == i + n)
  {
    hide StripLeft, StripRight, Upto;
    var s, i := Strip(a), |a| - |StripLeft(a)|;
    var n := |Upto(s, {'='})|;
    StripCuts(a);
    UptoFacts(s, {'='});
    if n < |s| {
      forall h | 0 <= h < i + n ensures a[h] !in {'='} {
        if h < i {
          assert IsSpace(a[..i][h]);
        } else {
          assert a[h] == s[h - i];
        }
      }
      assert a[i + n] == s[n];
      UptoIs(a, {'='}, i + n);
    }
  }

  lemma SameTail(a: string, b: string, i: nat, m: nat, n: nat)
    requires |a| == |b| && n < m && i + m <= |a| && a[i + n..] == b[i + n..]
    ensures a[i..i + m][n + 1..] == b[i..i + m][n + 1..]
  {
    SliceTail(a, i, m, n);
    SliceTail(b, i, m, n);
  }

  lemma SliceTail(a: string, i: nat, m: nat, n: nat)
    requires n < m && i + m <= |a|
    ensures a[i..i + m][n + 1..] == a[i + n..][1..m - n]
  {
    assert a[i..i + m][n + 1..] == a[i + n + 1..i + m];
    assert a[i + n..][1..m - n] == a[i + n + 1..i + m];
  }

  // What stands behind the first equals sign of a stripped line.
  lemma SameRest(a: string, b: string)
    requires SameLine(a, b) && !HeaderLike(Strip(a))
    ensures AfterEquals(Strip(a)) == AfterEquals(Strip(b))
  {
    hide SameChar, StripLeft, StripRight, Upto, Strip, HeaderLike;
    var s, t, i := Strip(a), Strip(b), |a| - |StripLeft(a)|;
    SameStrip(a, b);
    SameStripLeft(a, b);
    SameUpto(s, t, {'='});
    SignAt(a);
    SignAt(b);
    var n := |Upto(s, {'='})|;
    assert Upto(s, {'='}) == "" <==> Upto(t, {'='}) == "";
    if n < |s| {
      SameTail(a, b, i, |s|, n);
    }
  }

  // The stripped line stands behind the blanks in front.
  lemma StripCuts(a: string)
    ensures var i := |a| - |StripLeft(a)|;
            i + |Strip(a)| <= |a| && Strip(a) == a[i..i + |Strip(a)|] && AllSpace(a[..i])
  {
    hide IsSpace;
    StripLeftFacts(a);
    StripRightFacts(StripLeft(a));
  }

  // Such lines are classified alike.
  lemma ClassifyIgnoresCase(a: string, b: string, section: string)
    requires SameLine(a, b)
    ensures Classify(a, section) == Classify(b, section)
  {
    hide SameChar, Strip, Upto, Lower, Sscanf, AfterEquals, ReadValue, ScanValue, ScanBare, Unquote;
    var s, t := Strip(a), Strip(b);
    SameStrip(a, b);
    SameHeader(s, t);
    if s != "" && s[0] != '#' {
      if HeaderLike(s) {
        HeaderScan(s);
        HeaderScan(t);
        SameSlice(s, t, 1, |s|);
        SameUpto(s[1..], t[1..], {']'});
        SameStrip(Upto(s[1..], {']'}), Upto(t[1..], {']'}));
      } else {
        SameRest(a, b);
        ValueLine(s, section);
        ValueLine(t, section);
        SameUpto(s, t, {'='});
        SameStrip(Upto(s, {'='}), Upto(t, {'='}));
      }
    }
  }

  predicate SameLines(a: seq<string>, b: seq<string>) {
    |a| == |b| && forall i :: 0 <= i < |a| ==> SameLine(a[i], b[i])
  }

  lemma {:induction false} FoldIgnoresCase(st: Store, a: seq<string>, b: seq<string>)
    requires SameLines(a, b)
    ensures Fold(st, a) == Fold(st, b)
    decreases a
  {
    hide SameLine, Classify;
    if a != [] {
      ClassifyIgnoresCase(a[0], b[0], st.section);
      FoldIgnoresCase(Apply(st, a[0]), a[1..], b[1..]);
    }
  }

  // Texts whose logical lines differ in that only load alike.
  lemma LoadIgnoresCase(text: string, text': string)
    requires match (LogicalLines(text, ""), LogicalLines(text', ""))
             case (Some(a), Some(b)) => SameLines(a, b)
             case (None, None) => true
             case _ => false
    ensures Load(text) == Load(text')
  {
    hide Fold, LogicalLines, SameLines;
    if LogicalLines(text, "").Some? {
      FoldIgnoresCase(Start(), LogicalLines(text, "").value, LogicalLines(text', "").value);
    }
  }

  lemma SameFits(a: string, b: string)
    requires SameLetters(a, b) && Fits(a)
    ensures Fits(b)
  {
    hide IsSpace, StripRight;
    forall i | 0 <= i < |a| ensures b[i] != '\n' && b[i] != '\0' {
      SameKind(a[i], b[i]);
    }
    SameStripRight(a, b);
    var s, t := StripRight(a), StripRight(b);
    if s != "" {
      SameKind(s[|s| - 1], t[|s| - 1]);
    }
  }

  // The same for lines that fit and are not continued.
  lemma LinesIgnoreCase(a: seq<string>, b: seq<string>)
    requires SameLines(a, b) && forall l :: l in a ==> Fits(l)
    ensures Load(Text(a)) == Load(Text(b))
  {
    hide SameChar, Fits, Fold, HeaderLike, Upto;
    forall l | l in b ensures Fits(l) {
      var i :| 0 <= i < |b| && b[i] == l;
      SameFits(a[i], b[i]);
    }
    LoadsLines(a);
    LoadsLines(b);
    FoldIgnoresCase(Start(), a, b);
  }
}
