// Which logical lines the loader makes of physical ones when none is lost.

module IniSeen {
  import opened Bytes
  import opened IniLine
  import opened IniLoad

  // The lines that are not empty.
  function Solid(lines: seq<string>): (r: seq<string>)
    ensures forall l :: l in r ==> l in lines
  {
    if lines == [] then [] else (if lines[0] == "" then [] else [lines[0]]) + Solid(lines[1..])
  }

  lemma {:induction false} SolidConcat(a: seq<string>, b: seq<string>)
    ensures Solid(a + b) == Solid(a) + Solid(b)
  {
    if a == [] {
      NilLeft(b);
      NilLeft(Solid(b));
    } else {
      assert (a + b)[0] == a[0] && (a + b)[1..] == a[1..] + b;
      SolidConcat(a[1..], b);
      Assoc(if a[0] == "" then [] else [a[0]], Solid(a[1..]), Solid(b));
    }
  }

  // A trimmed line without the backslashes that continue it by nothing but empty lines.
  function Cut(t: string): (r: string)
    ensures |r| <= |t|
    ensures Continues(t) ==> |r| < |t|
    decreases |t|
  {
    if Continues(t) then Cut(StripRight(t[..|t| - 1])) else t
  }

  // What the loader makes of lines each of which stands for itself.
  ghost predicate Seen(ls: seq<string>, lines: seq<string>) {
    |ls| == |lines| && forall i :: 0 <= i < |ls| ==> Short(lines[i]) && ls[i] == Cut(StripRight(lines[i]))
  }

  lemma SeenMore(l: string, ls: seq<string>, lines: seq<string>)
    requires Short(l) && Seen(ls, lines)
    ensures Seen([Cut(StripRight(l))] + ls, [l] + lines)
  {
  }

  // Of the lines that are not empty, as many or fewer remain; if as many, each stands
  // for itself.
  lemma {:induction false} SolidCount(lines: seq<string>, carry: string)
    requires (forall l :: l in lines ==> '\n' !in l) && '\n' !in carry && |carry| < ASCIILINESZ - 2
    ensures match LogicalLines(Text(lines), carry)
            case None => true
            case Some(ls) =>
              if carry == "" then
                && |Solid(ls)| <= |Solid(lines)|
                && (|Solid(ls)| == |Solid(lines)| ==> Seen(Solid(ls), Solid(lines)))
              else
                && |Solid(ls)| <= |Solid(lines)| + 1
                && (|Solid(ls)| == |Solid(lines)| + 1 ==>
                      Solid(ls)[0] == Cut(StripRight(carry)) && Seen(Solid(ls)[1..], Solid(lines)))
    decreases lines
  {
    hide LogicalLines, StripRight, Seen, Cut;
    if lines == [] {
      NoLines(carry);
      SeenNothing();
    } else {
      var l, more := lines[0], lines[1..];
      LogicalStep(l, Text(more), carry);
      NilLeft(l);
      var t := StripRight(carry + l);
      if |carry| + |l| < ASCIILINESZ - 1 && '\0' !in carry + l && LogicalLines(Text(lines), carry).Some? {
        var ls := LogicalLines(Text(lines), carry).value;
        CutStep(t);
        if l == "" {
          assert carry + l == carry;
          NilLeft(Solid(more));
        }
        if Continues(t) {
          StripRightWithin(carry + l, '\n');
          SolidCount(more, t[..|t| - 1]);
          if Solid(ls) != [] && Seen(Solid(ls)[1..], Solid(more)) && carry == "" {
            SeenMore(l, Solid(ls)[1..], Solid(more));
            assert Solid(ls) == [Solid(ls)[0]] + Solid(ls)[1..];
          }
        } else {
          SolidCount(more, "");
          SolidHead(t, LogicalLines(Text(more), "").value);
          if carry == "" && Seen(Solid(ls[1..]), Solid(more)) {
            SeenMore(l, Solid(ls[1..]), Solid(more));
          }
        }
      }
    }
  }

  lemma SolidHead(t: string, ls: seq<string>)
    ensures Solid([t] + ls) == if t == "" then Solid(ls) else [t] + Solid(ls)
  {
    assert ([t] + ls)[1..] == ls;
    NilLeft(Solid(ls));
  }

  lemma SeenNothing()
    ensures Seen([], [])
  {
  }

  lemma CutStep(t: string)
    ensures Cut(t) == if Continues(t) then Cut(StripRight(t[..|t| - 1])) else t
  {
  }
}
