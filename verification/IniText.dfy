// What a line of text stands for, piece by piece: which characters are blanks, signs,
// quotes and comments, by their codes.

module IniText {
  import opened Bytes
  import opened IniLine
  import opened IniEntry
  import opened IniCase
  import opened IniLoad
  import opened IniLoadMem

  // Space, and the codes from tab to carriage return.
  predicate Blank(c: char) {
    c as int == 32 || 9 <= c as int <= 13
  }

  predicate Blanks(s: string) {
    forall i :: 0 <= i < |s| ==> Blank(s[i])
  }

  // No blank at either end.
  predicate Bounded(s: string) {
    s == "" || (!Blank(s[0]) && !Blank(s[|s| - 1]))
  }

  predicate Lacks(s: string, code: nat) {
    forall i :: 0 <= i < |s| ==> s[i] as int != code
  }

  // `r` is `s` with the letters 'A' to 'Z' made small.
  predicate Small(s: string, r: string) {
    |r| == |s| &&
    forall i :: 0 <= i < |s| ==> r[i] as int == if 65 <= s[i] as int <= 90 then s[i] as int + 32 else s[i] as int
  }

  lemma BlanksAre(s: string)
    ensures Blanks(s) <==> AllSpace(s)
    ensures Bounded(s) <==> Trimmed(s)
  {
  }

  lemma LacksIs(s: string, c: char)
    ensures Lacks(s, c as int) <==> c !in s
  {
    if c in s {
      var i :| 0 <= i < |s| && s[i] == c;
    }
  }

  lemma SmallIs(s: string)
    ensures Small(s, Lower(s))
  {
    LowerIs(s);
  }

  // What is left of a line without the blanks around it.
  lemma Around(a: string, s: string, b: string)
    requires Blanks(a) && Blanks(b) && Bounded(s)
    ensures Strip(a + s + b) == s
  {
    hide Strip;
    BlanksAre(a);
    BlanksAre(b);
    BlanksAre(s);
    StripIs(a, s, b);
  }

  lemma LacksAround(a: string, s: string, b: string, code: nat)
    requires Blanks(a) && Blanks(b) && Lacks(s, code) && code != 32 && !(9 <= code <= 13)
    ensures Lacks(a + s + b, code)
  {
    var t := a + s + b;
    forall i | 0 <= i < |t| ensures t[i] as int != code {
      if i < |a| {
        assert t[i] == a[i];
      } else if i < |a| + |s| {
        assert t[i] == s[i - |a|];
      } else {
        assert t[i] == b[i - |a| - |s|];
      }
    }
  }

  // ---------------------------------------------------------------------------
  // Lines without a value
  // ---------------------------------------------------------------------------

  // Blanks are an empty line; a line whose first character is '#' is a comment; any other
  // line that is no header, and has no '=' or nothing before it, is an error.
  lemma OtherLines(a: string, s: string, b: string, section: string)
    requires Blanks(a) && Blanks(b) && Bounded(s)
    ensures var c := Classify(a + s + b, section);
            && (c.Empty? <==> s == "")
            && (c.Comment? <==> s != "" && s[0] as int == 35)
            && (c.Section? <==> s != "" && s[0] as int == 91 && s[|s| - 1] as int == 93)
            && (c.Error? <==> s != "" && s[0] as int != 35 && !(s[0] as int == 91 && s[|s| - 1] as int == 93)
                              && (Lacks(s, 61) || s[0] as int == 61))
  {
    hide Strip, Sscanf, ScanValue, ScanBare, Unquote, Lower, Upto, ReadValue;
    Around(a, s, b);
    if s != "" && s[0] != '#' && !HeaderLike(s) {
      ValueLine(s, section);
      UptoFacts(s, {'='});
      LacksIs(s, '=');
    }
  }

  // A header names its section up to the first ']', without the blanks around the name
  // and in small letters; what stands behind that bracket is passed over.
  lemma HeaderLine(a: string, w: string, n: string, x: string, more: string, b: string, section: string)
    requires Blanks(a) && Blanks(b) && Blanks(w) && Blanks(x) && Bounded(n) && w + n + x != "" && Lacks(n, 93)
    requires more != "" ==> more[|more| - 1] as int == 93
    ensures var c := Classify(a + ("[" + (w + n + x) + "]" + more) + b, section);
            c.Section? && Small(n, c.name)
  {
    hide Strip, Sscanf, Lower, Upto, ScanValue, ScanBare, Unquote;
    var i, line := w + n + x, "[" + (w + n + x) + "]" + more;
    assert line[0] == '[' && line[|line| - 1] == ']';
    Around(a, line, b);
    Around(w, n, x);
    assert line[1..] == i + "]" + more;
    assert (i + "]" + more)[..|i|] == i && (i + "]" + more)[|i|] == ']';
    LacksAround(w, n, x, 93);
    LacksIs(i, ']');
    UptoIs(line[1..], {']'}, |i|);
    HeaderScan(line);
    SmallIs(n);
  }

  // A header without a name is read as the name in the section buffer.
  lemma NamelessHeader(a: string, more: string, b: string, x: string, n: string, y: string)
    requires Blanks(a) && Blanks(b) && Blanks(x) && Blanks(y) && Bounded(n)
    requires more != "" ==> more[|more| - 1] as int == 93
    ensures var c := Classify(a + ("[]" + more) + b, x + n + y); c.Section? && Small(n, c.name)
  {
    hide Strip, Sscanf, Lower, Upto, ScanValue, ScanBare, Unquote;
    var line := "[]" + more;
    assert line[0] == '[' && line[|line| - 1] == ']' && line[1] == ']';
    Around(a, line, b);
    Around(x, n, y);
    UptoIs(line[1..], {']'}, 0);
    HeaderScan(line);
    SmallIs(n);
  }

  // ---------------------------------------------------------------------------
  // Lines with a value
  // ---------------------------------------------------------------------------

  // A key with the blanks around it, the sign, and what follows.
  lemma OneKey(a: string, k: string, w: string, u: string, r: string, b: string, section: string)
    requires Blanks(a) && Blanks(w) && Bounded(k) && k != "" && k[0] as int != 35 && k[0] as int != 91 && Lacks(k, 61)
    requires Blanks(u) && Blanks(b) && Bounded(r) && (r == "" ==> u == "")
    ensures var c := Classify(a + (k + w + "=" + (u + r)) + b, section);
            c.Value? && Small(k, c.key) && c.value == ReadValue(r)
  {
    hide Strip, Sscanf, Lower, Upto, ScanValue, ScanBare, Unquote, ReadValue, AfterEquals;
    var h, line := k + w, k + w + "=" + (u + r);
    assert line[0] == k[0] && (r != "" ==> line[|line| - 1] == r[|r| - 1]) && (r == "" ==> line[|line| - 1] == '=');
    Around(a, line, b);
    LacksAround("", k, w, 61);
    assert "" + k + w == h;
    LacksIs(h, '=');
    KeyScan(h, u + r);
    BlanksAre(u);
    StripLeftIs(u, r);
    Around("", k, w);
    ValueLine(line, section);
    SmallIs(k);
  }

  // An unquoted value goes up to the first ';' or '#', and the blanks around it are cut.
  lemma PlainValue(a: string, k: string, w: string, u: string, v: string, x: string, c: string, b: string,
                   section: string)
    requires Blanks(a) && Blanks(w) && Bounded(k) && k != "" && k[0] as int != 35 && k[0] as int != 91 && Lacks(k, 61)
    requires Blanks(u) && Blanks(x) && Blanks(b) && Bounded(v) && Lacks(v, 59) && Lacks(v, 35)
    requires v == "" || (v[0] as int != 34 && v[0] as int != 39)
    requires if c == "" then x == "" else (c[0] as int == 59 || c[0] as int == 35) && !Blank(c[|c| - 1])
    requires v == "" ==> x == "" && (c == "" ==> u == "")
    ensures var r := Classify(a + (k + w + "=" + (u + (v + x + c))) + b, section);
            r.Value? && Small(k, r.key) && r.value == v
  {
    hide Classify, Strip, Lower, Upto;
    var r := v + x + c;
    assert r != "" ==> r[0] == if v != "" then v[0] else c[0];
    assert r != "" ==> r[|r| - 1] == if c != "" then c[|c| - 1] else v[|v| - 1];
    OneKey(a, k, w, u, r, b, section);
    var m := v + x;
    assert r[..|m|] == m && (c != "" ==> r[|m|] == c[0]);
    LacksAround("", v, x, 59);
    LacksAround("", v, x, 35);
    assert "" + v + x == m;
    LacksIs(m, ';');
    LacksIs(m, '#');
    UptoIs(r, {';', '#'}, |m|);
    Around("", v, x);
  }

  // Two quotes stand for the empty value, with a comment behind them or without.
  lemma NoValue(a: string, k: string, w: string, u: string, q: char, x: string, c: string, b: string, section: string)
    requires Blanks(a) && Blanks(w) && Bounded(k) && k != "" && k[0] as int != 35 && k[0] as int != 91 && Lacks(k, 61)
    requires Blanks(u) && Blanks(x) && Blanks(b) && (q as int == 34 || q as int == 39)
    requires if c == "" then x == "" else (c[0] as int == 59 || c[0] as int == 35) && !Blank(c[|c| - 1])
    ensures var r := Classify(a + (k + w + "=" + (u + ([q, q] + x + c))) + b, section);
            r.Value? && Small(k, r.key) && r.value == ""
  {
    hide Classify, Strip, Lower, Upto;
    var r := [q, q] + x + c;
    assert r[|r| - 1] == if c != "" then c[|c| - 1] else q;
    OneKey(a, k, w, u, r, b, section);
    UptoIs(r[1..], {q}, 0);
    var m := [q, q] + x;
    assert r[..|m|] == m && (c != "" ==> r[|m|] == c[0]);
    LacksAround("", [q, q], x, 59);
    LacksAround("", [q, q], x, 35);
    assert "" + [q, q] + x == m;
    LacksIs(m, ';');
    LacksIs(m, '#');
    UptoIs(r, {';', '#'}, |m|);
    Around("", [q, q], x);
  }

  // A quoted value goes up to the next quote of its kind, comment signs and all; the
  // blanks around it are cut here too, and two quotes of the other kind are no value.
  lemma QuotedValue(a: string, k: string, w: string, u: string, q: char, x: string, v: string, y: string, e: string,
                    b: string, section: string)
    requires Blanks(a) && Blanks(w) && Bounded(k) && k != "" && k[0] as int != 35 && k[0] as int != 91 && Lacks(k, 61)
    requires Blanks(u) && Blanks(x) && Blanks(y) && Blanks(b) && (q as int == 34 || q as int == 39)
    requires Bounded(v) && Lacks(v, q as int) && x + v + y != ""
    requires if e == "" then v != "" && y == "" else e[0] == q && !Blank(e[|e| - 1])
    ensures var r := Classify(a + (k + w + "=" + (u + ([q] + (x + v + y) + e))) + b, section);
            && r.Value? && Small(k, r.key)
            && r.value == if |v| == 2 && v[0] == v[1] && (v[0] as int == 34 || v[0] as int == 39) then "" else v
  {
    hide Classify, Strip, Lower, Upto;
    var m := x + v + y;
    var r := [q] + m + e;
    assert r[|r| - 1] == if e != "" then e[|e| - 1] else v[|v| - 1];
    OneKey(a, k, w, u, r, b, section);
    assert r[1..] == m + e && r[1..][..|m|] == m && (e != "" ==> r[1..][|m|] == q);
    LacksAround(x, v, y, q as int);
    LacksIs(m, q);
    UptoIs(r[1..], {q}, |m|);
    Around(x, v, y);
  }

  // ---------------------------------------------------------------------------
  // Lines of a file and lines of memory
  // ---------------------------------------------------------------------------

  // A backslash with nothing but blanks behind it.
  predicate Slash(l: string, i: nat)
    requires i < |l|
  {
    l[i] as int == 92 && Blanks(l[i + 1..])
  }

  // The lines that the file loader reads as they stand: shorter than 1023 characters,
  // without a zero, and not continued.
  lemma FitsIs(l: string)
    ensures Fits(l) <==> |l| < 1023 && Lacks(l, 10) && Lacks(l, 0) && forall i :: 0 <= i < |l| ==> !Slash(l, i)
  {
    hide StripRight;
    LacksIs(l, '\n');
    LacksIs(l, '\0');
    StripRightFacts(l);
    var t := StripRight(l);
    BlanksAre(l[|t|..]);
    if Continues(t) {
      assert Slash(l, |t| - 1);
    }
    if i: nat :| i < |l| && Slash(l, i) {
      BlanksAre(l[i + 1..]);
      assert l == l[..i + 1] + l[i + 1..];
      StripRightIs(l[..i + 1], l[i + 1..]);
    }
  }

  // The memory loader's next line, behind which the text ends or goes on: 1023 characters
  // of it and its terminator get into the buffer, and a line of 1024 ends the loading.
  lemma MemoryLine(t: string, e: string, rest: string)
    requires Lacks(t, 13) && Lacks(t, 10) && Lacks(t, 0)
    requires e == "\n" || e == "\r\n" || e == "\0" || (e == "\r" && (rest == "" || rest[0] as int != 10))
    ensures var g, room := GetLine(t + e + rest, ASCIILINESZ), 1023 - |t|;
            if room < 0 then g.r == 0
            else var k := Min(|e|, room); g.buf == t + e[..k] && g.r == |t| + k
  {
    hide Upto;
    var s := t + e + rest;
    LacksIs(t, '\r');
    LacksIs(t, '\n');
    LacksIs(t, '\0');
    forall i | 0 <= i < |t| ensures s[i] !in ENDS {
      assert s[i] == t[i];
    }
    assert s[|t|] == e[0] && At(s, |t| + 1) == if |e| > 1 then e[1] else if rest != "" then rest[0] else '\0';
    UptoIs(s, ENDS, |t|);
    assert s[..|t|] == t && s[..|t| + 1] == t + e[..1] && (|e| > 1 ==> s[..|t| + 2] == t + e);
  }
}
