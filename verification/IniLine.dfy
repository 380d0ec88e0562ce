// One line of an INI file: stripping, lower-casing, the scan patterns and the
// classification they add up to.

module IniLine {
  import opened Bytes

  // ---------------------------------------------------------------------------
  // Characters and runs
  // ---------------------------------------------------------------------------

  // isspace, in the C locale
  predicate IsSpace(c: char) {
    c == ' ' || '\t' <= c <= '\r'
  }

  // tolower, in the C locale
  function ToLower(c: char): char {
    if 'A' <= c <= 'Z' then c - 'A' + 'a' else c
  }

  function Lower(s: string): (r: string)
    ensures |r| == |s|
    ensures forall i :: 0 <= i < |s| ==> r[i] == ToLower(s[i])
  {
    if s == "" then "" else [ToLower(s[0])] + Lower(s[1..])
  }

  // The longest prefix without a character of `stop`: what %[^stop] takes.
  function Upto(s: string, stop: set<char>): (r: string)
    ensures |r| <= |s|
  {
    if s == "" || s[0] in stop then "" else [s[0]] + Upto(s[1..], stop)
  }

  lemma {:induction false} UptoFacts(s: string, stop: set<char>)
    ensures var n := |Upto(s, stop)|;
            Upto(s, stop) == s[..n] && (forall i :: 0 <= i < n ==> s[i] !in stop) && (n < |s| ==> s[n] in stop)
  {
    if s != "" && s[0] !in stop {
      UptoFacts(s[1..], stop);
    }
  }

  lemma {:induction false} UptoIs(s: string, stop: set<char>, n: nat)
    requires n <= |s| && (forall i :: 0 <= i < n ==> s[i] !in stop) && (n < |s| ==> s[n] in stop)
    ensures Upto(s, stop) == s[..n]
  {
    if n > 0 {
      UptoIs(s[1..], stop, n - 1);
      assert s[..n] == [s[0]] + s[1..][..n - 1];
    }
  }

  // The longest prefix of characters of `some`: what %[some] takes.
  function Only(s: string, some: set<char>): (r: string)
    ensures |r| <= |s|
  {
    if s == "" || s[0] !in some then "" else [s[0]] + Only(s[1..], some)
  }

  function StripLeft(s: string): (r: string)
    ensures |r| <= |s|
  {
    if s != "" && IsSpace(s[0]) then StripLeft(s[1..]) else s
  }

  function StripRight(s: string): (r: string)
    ensures |r| <= |s|
  {
    if s != "" && IsSpace(s[|s| - 1]) then StripRight(s[..|s| - 1]) else s
  }

  function Strip(s: string): (r: string)
    ensures |r| <= |s|
  {
    StripRight(StripLeft(s))
  }

  // No white space at either end.
  predicate Trimmed(s: string) {
    s == "" || (!IsSpace(s[0]) && !IsSpace(s[|s| - 1]))
  }

  predicate AllSpace(s: string) {
    forall i :: 0 <= i < |s| ==> IsSpace(s[i])
  }

  lemma {:induction false} StripLeftFacts(s: string)
    ensures var n := |s| - |StripLeft(s)|;
            StripLeft(s) == s[n..] && AllSpace(s[..n]) && (n < |s| ==> !IsSpace(s[n]))
  {
    if s != "" && IsSpace(s[0]) {
      StripLeftFacts(s[1..]);
    }
  }

  lemma {:induction false} StripRightFacts(s: string)
    ensures var n := |StripRight(s)|;
            StripRight(s) == s[..n] && AllSpace(s[n..]) && (n > 0 ==> !IsSpace(s[n - 1]))
  {
    if s != "" && IsSpace(s[|s| - 1]) {
      StripRightFacts(s[..|s| - 1]);
    }
  }

  // Stripping leaves a trimmed string, and cuts off nothing but white space.
  lemma StripFacts(s: string) returns (a: string, b: string)
    ensures Trimmed(Strip(s)) && AllSpace(a) && AllSpace(b) && s == a + Strip(s) + b
  {
    var l := StripLeft(s);
    StripLeftFacts(s);
    StripRightFacts(l);
    a, b := s[..|s| - |l|], l[|StripRight(l)|..];
  }

  // Stripping removes exactly the white space around.
  lemma StripIs(a: string, s: string, b: string)
    requires AllSpace(a) && AllSpace(b) && Trimmed(s)
    ensures Strip(a + s + b) == s
  {
    var t := a + s + b;
    if s == "" {
      assert t == t + "" && AllSpace(t);
      StripLeftIs(t, "");
    } else {
      assert t == a + (s + b);
      StripLeftIs(a, s + b);
      StripRightIs(s, b);
    }
  }

  lemma {:induction false} StripLeftIs(a: string, s: string)
    requires AllSpace(a) && (s != "" ==> !IsSpace(s[0]))
    ensures StripLeft(a + s) == s
    decreases |a|
  {
    if a == "" {
      NilLeft(s);
    } else {
      assert (a + s)[1..] == a[1..] + s;
      StripLeftIs(a[1..], s);
    }
  }

  lemma {:induction false} StripRightIs(s: string, b: string)
    requires AllSpace(b) && (s != "" ==> !IsSpace(s[|s| - 1]))
    ensures StripRight(s + b) == s
    decreases |b|
  {
    if b == "" {
      NilLeft(s);
    } else {
      assert (s + b)[..|s + b| - 1] == s + b[..|b| - 1];
      StripRightIs(s, b[..|b| - 1]);
    }
  }

  lemma StripTrimmed(s: string)
    requires Trimmed(s)
    ensures Strip(s) == s
  {
    StripIs("", s, "");
    assert "" + s + "" == s;
  }

  // ---------------------------------------------------------------------------
  // sscanf
  // ---------------------------------------------------------------------------

  // The directives that the patterns of this parser are made of: white space, a
  // literal character, %[^stop] and %[some].
  datatype Pattern =
    | End
    | Space(rest: Pattern)
    | Lit(c: char, rest: Pattern)
    | Not(stop: set<char>, rest: Pattern)
    | In(some: set<char>, rest: Pattern)

  // The strings that sscanf stores, in order; its return value is their number.
  function Sscanf(p: Pattern, s: string): seq<string>
    decreases p
  {
    match p
    case End => []
    case Space(rest) => Sscanf(rest, StripLeft(s))
    case Lit(c, rest) => if s != "" && s[0] == c then Sscanf(rest, s[1..]) else []
    case Not(stop, rest) =>
      var r := Upto(s, stop);
      if r == "" then [] else [r] + Sscanf(rest, s[|r|..])
    case In(some, rest) =>
      var r := Only(s, some);
      if r == "" then [] else [r] + Sscanf(rest, s[|r|..])
  }

  // [%[^]]
  function Header(): Pattern { Lit('[', Not({']'}, End)) }

  // %[^=] = q%[^q]q
  function Quoted(q: char): Pattern { Not({'='}, Space(Lit('=', Space(Lit(q, Not({q}, Lit(q, End))))))) }

  // %[^=] = %[^;#]
  function Plain(): Pattern { Not({'='}, Space(Lit('=', Space(Not({';', '#'}, End))))) }

  // %[^=] = %[;#]
  function Remark(): Pattern { Not({'='}, Space(Lit('=', Space(In({';', '#'}, End))))) }

  // %[^=] %[=]
  function Bare(): Pattern { Not({'='}, Space(In({'='}, End))) }

  // ---------------------------------------------------------------------------
  // Classification
  // ---------------------------------------------------------------------------

  datatype Status = Empty | Comment | Section(name: string) | Value(key: string, value: string) | Error

  // The first of the three value patterns that stores two strings.
  function ScanValue(line: string): seq<string> {
    var a := Sscanf(Quoted('"'), line);
    if |a| == 2 then a else
    var b := Sscanf(Quoted('\''), line);
    if |b| == 2 then b else Sscanf(Plain(), line)
  }

  function ScanBare(line: string): seq<string> {
    var a := Sscanf(Remark(), line);
    if |a| == 2 then a else Sscanf(Bare(), line)
  }

  // sscanf has no way to read an empty quoted value.
  function Unquote(v: string): string {
    if v == "\"\"" || v == "''" then "" else v
  }

  // What iniparser_line makes of a stripped line; `section` is the name already
  // in the section buffer.
  function ClassifyStripped(line: string, section: string): Status {
    if line == "" then Empty
    else if line[0] == '#' then Comment
    else if line[0] == '[' && line[|line| - 1] == ']' then
      var r := Sscanf(Header(), line);
      Section(Lower(Strip(if |r| == 1 then r[0] else section)))
    else
      var a, b := ScanValue(line), ScanBare(line);
      if |a| == 2 then Value(Lower(Strip(a[0])), Unquote(Strip(a[1])))
      else if |b| == 2 then Value(Lower(Strip(b[0])), "")
      else Error
  }

  function Classify(input: string, section: string): Status {
    ClassifyStripped(Strip(input), section)
  }

  const ASCIILINESZ := 1024

  lemma StripLeftStep(s: string, i: nat)
    requires i <= |s|
    ensures i < |s| && IsSpace(s[i]) ==> StripLeft(s[i..]) == StripLeft(s[i + 1..])
    ensures i == |s| || !IsSpace(s[i]) ==> StripLeft(s[i..]) == s[i..]
  {
    if i < |s| {
      assert s[i..][1..] == s[i + 1..];
    }
  }

  lemma StripRightStep(s: string, i: nat)
    requires i <= |s|
    ensures i > 0 && IsSpace(s[i - 1]) ==> StripRight(s[..i]) == StripRight(s[..i - 1])
    ensures i == 0 || !IsSpace(s[i - 1]) ==> StripRight(s[..i]) == s[..i]
  {
    if i > 0 {
      assert s[..i][..i - 1] == s[..i - 1];
    }
  }

  // strstrip: skip the blanks in front, copy the rest, cut the blanks behind.
  method Strstrip(s: string) returns (r: string)
    ensures r == Strip(s)
  {
    hide StripLeft, StripRight, IsSpace, Trimmed;
    var i := 0;
    DropAll(s);
    while i < |s| && IsSpace(s[i])
      invariant i <= |s| && StripLeft(s) == StripLeft(s[i..])
    {
      StripLeftStep(s, i);
      i := i + 1;
    }
    StripLeftStep(s, i);
    var buf := s[i..];
    r := CutBlanks(buf);
  }

  // The loop that takes the blanks off the end of a buffer.
  method CutBlanks(buf: string) returns (r: string)
    ensures r == StripRight(buf)
  {
    hide StripRight, IsSpace;
    var last: nat := |buf|;
    DropAll(buf);
    while last > 0 && IsSpace(buf[last - 1])
      invariant last <= |buf| && StripRight(buf) == StripRight(buf[..last])
    {
      StripRightStep(buf, last);
      last := last - 1;
    }
    StripRightStep(buf, last);
    r := buf[..last];
  }

  // strlwc, whose buffer holds ASCIILINESZ characters.
  method Strlwc(s: string) returns (buf: string)
    ensures buf == Lower(s[..Min(|s|, ASCIILINESZ)])
    ensures |s| <= ASCIILINESZ ==> buf == Lower(s)
    ensures |buf| == (if |s| < 1024 then |s| else 1024)
    ensures forall i :: 0 <= i < |buf| ==>
              buf[i] as int == if 65 <= s[i] as int <= 90 then s[i] as int + 32 else s[i] as int
  {
    DropAll(s);
    var i := 0;
    buf := "";
    while i < |s| && i < ASCIILINESZ
      invariant i <= |s| && i <= ASCIILINESZ && |buf| == i
      invariant forall k :: 0 <= k < i ==> buf[k] == ToLower(s[k])
    {
      buf := buf + [ToLower(s[i])];
      i := i + 1;
    }
  }

  // iniparser_line on the contents of a line buffer.
  method IniparserLine(input: string, section: string) returns (sta: Status)
    requires |input| <= ASCIILINESZ && |section| <= ASCIILINESZ
    ensures sta == Classify(input, section)
  {
    hide Sscanf, ScanValue, ScanBare, Trimmed, Strip, Lower, Unquote;
    var line := Strstrip(input);
    ScansAreShort(line);
    if |line| < 1 {
      sta := Empty;
    } else if line[0] == '#' {
      sta := Comment;
    } else if line[0] == '[' && line[|line| - 1] == ']' {
      var r := Sscanf(Header(), line);
      var name := Strstrip(if |r| == 1 then r[0] else section);
      name := Strlwc(name);
      sta := Section(name);
    } else {
      var kv := ScanValue(line);
      if |kv| == 2 {
        var key := Strstrip(kv[0]);
        key := Strlwc(key);
        var value := Strstrip(kv[1]);
        sta := Value(key, Unquote(value));
      } else {
        kv := ScanBare(line);
        if |kv| == 2 {
          var key := Strstrip(kv[0]);
          key := Strlwc(key);
          sta := Value(key, "");
        } else {
          sta := Error;
        }
      }
    }
  }

  // No pattern stores more characters than it reads.
  lemma {:induction false} ScanIsShort(p: Pattern, s: string)
    ensures forall x :: x in Sscanf(p, s) ==> |x| <= |s|
    decreases p
  {
    match p
    case End =>
    case Space(rest) => ScanIsShort(rest, StripLeft(s));
    case Lit(c, rest) => if s != "" && s[0] == c { ScanIsShort(rest, s[1..]); }
    case Not(stop, rest) => ScanIsShort(rest, s[|Upto(s, stop)|..]);
    case In(some, rest) => ScanIsShort(rest, s[|Only(s, some)|..]);
  }

  lemma ScansAreShort(line: string)
    ensures forall x :: x in ScanValue(line) || x in ScanBare(line) || x in Sscanf(Header(), line) ==> |x| <= |line|
  {
    hide Sscanf;
    ScanIsShort(Header(), line);
    ScanIsShort(Quoted('"'), line);
    ScanIsShort(Quoted('\''), line);
    ScanIsShort(Plain(), line);
    ScanIsShort(Remark(), line);
    ScanIsShort(Bare(), line);
  }
}
