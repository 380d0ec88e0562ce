// UTF-8 strings: counting characters, and the copy that tidies up white space.

module Utf8 {
  import opened Bytes
  import opened Output

  const TAB: byte := 9
  const LF: byte := 10
  const CR: byte := 13
  const BLANK: byte := 32

  type Unit = seq<byte>

  // utf8_check: the length that a lead byte announces, 0 if it is none.
  function Lead(c: byte): (n: nat)
    ensures n <= 6
  {
    if c & 0x80 == 0 then 1
    else if c & 0xE0 == 0xC0 then 2
    else if c & 0xF0 == 0xE0 then 3
    else if c & 0xF8 == 0xF0 then 4
    else if c & 0xFC == 0xF8 then 5
    else if c & 0xFE == 0xFC then 6
    else 0
  }

  // A byte is a lead byte exactly if it is no continuation byte, nor 0xFE or 0xFF.
  lemma LeadBytes(c: byte)
    ensures Lead(c) == 0 <==> (0x80 <= c < 0xC0 || c >= 0xFE)
    ensures c < 0x80 <==> Lead(c) == 1
  {
  }

  // The characters up to the first byte that is out of place.
  function Units(s: seq<byte>): seq<Unit> {
    if s == [] || Lead(s[0]) == 0 || Lead(s[0]) > |s| then []
    else [s[..Lead(s[0])]] + Units(s[Lead(s[0])..])
  }

  predicate IsUnit(u: Unit) {
    u != [] && |u| == Lead(u[0])
  }

  predicate AllUnits(us: seq<Unit>) {
    forall u :: u in us ==> IsUnit(u)
  }

  lemma {:induction false} UnitsAreUnits(s: seq<byte>)
    ensures AllUnits(Units(s)) && Flatten(Units(s)) <= s
  {
    hide Lead;
    if s == [] || Lead(s[0]) == 0 || Lead(s[0]) > |s| {
    } else {
      var n := Lead(s[0]);
      UnitsAreUnits(s[n..]);
      assert s == s[..n] + s[n..];
      assert Flatten(Units(s)) == s[..n] + Flatten(Units(s[n..]));
    }
  }

  // Characters that are strung together are read back one by one.
  lemma {:induction false} UnitsOfFlatten(us: seq<Unit>)
    requires AllUnits(us)
    ensures Units(Flatten(us)) == us
  {
    hide Lead;
    if us != [] {
      assert us[0] in us;
      var s, n := Flatten(us), |us[0]|;
      assert s[..n] == us[0] && s[n..] == Flatten(us[1..]) && s[0] == us[0][0];
      UnitsOfFlatten(us[1..]);
    }
  }

  // utf8_strlen
  method Utf8Strlen(src: seq<byte>) returns (ulen: nat)
    ensures ulen == |Units(src)|
  {
    hide Lead;
    ulen := 0;
    var i := 0;
    DropAll(src);
    while i < |src|
      invariant i <= |src| && ulen + |Units(src[i..])| == |Units(src)|
    {
      var tmp := Lead(src[i]);
      if tmp > 0 && i + tmp <= |src| {
        Drops(src, i, tmp);
        i := i + tmp;
        ulen := ulen + 1;
      } else {
        break;
      }
    }
  }

  // ---------------------------------------------------------------------------
  // The tidy form
  // ---------------------------------------------------------------------------

  predicate Breaks(c: byte) {
    c == CR || c == LF || c == TAB
  }

  function First(u: Unit): byte {
    if u == [] then 0 else u[0]
  }

  // Without the characters CR, LF and TAB.
  function Kept(us: seq<Unit>): seq<Unit> {
    if us == [] then []
    else if Breaks(First(us[0])) then Kept(us[1..]) else [us[0]] + Kept(us[1..])
  }

  // Without spaces that follow a space; `flag` says that one went before.
  function Squeeze(us: seq<Unit>, flag: bool): seq<Unit> {
    if us == [] then []
    else if First(us[0]) != BLANK then [us[0]] + Squeeze(us[1..], false)
    else if flag then Squeeze(us[1..], true)
    else [us[0]] + Squeeze(us[1..], true)
  }

  // What utf8_strncpy copies.
  function Tidied(s: seq<byte>, max: nat): seq<Unit> {
    Clip(Squeeze(Kept(Units(s)), true), max)
  }

  // No CR, LF or TAB, no space in front, no space behind a space.
  predicate Tidy(us: seq<Unit>, flag: bool) {
    && (forall i :: 0 <= i < |us| ==> !Breaks(First(us[i])))
    && (us != [] && flag ==> First(us[0]) != BLANK)
    && (forall i :: 0 < i < |us| ==> First(us[i]) == BLANK ==> First(us[i - 1]) != BLANK)
  }

  lemma {:induction false} KeptFacts(us: seq<Unit>)
    ensures forall u :: u in Kept(us) ==> u in us && !Breaks(First(u))
    ensures (forall u :: u in us ==> !Breaks(First(u))) ==> Kept(us) == us
  {
    if us != [] {
      KeptFacts(us[1..]);
    }
  }

  lemma {:induction false} SqueezeFacts(us: seq<Unit>, flag: bool)
    requires forall u :: u in us ==> !Breaks(First(u))
    ensures Tidy(Squeeze(us, flag), flag) && forall u :: u in Squeeze(us, flag) ==> u in us
    ensures Tidy(us, flag) ==> Squeeze(us, flag) == us
    decreases us
  {
    if us != [] {
      var blank := First(us[0]) == BLANK;
      SqueezeFacts(us[1..], blank);
      var more := Squeeze(us[1..], blank);
      var r := [us[0]] + more;
      assert forall i :: 1 <= i < |r| ==> r[i] == more[i - 1];
    }
  }

  // The copy is tidy, made of characters, at most `max` of them.
  lemma TidiedIsTidy(s: seq<byte>, max: nat)
    ensures Tidy(Tidied(s, max), true) && AllUnits(Tidied(s, max)) && |Tidied(s, max)| <= max
  {
    hide Lead, Breaks, Units, Kept, Squeeze;
    UnitsAreUnits(s);
    KeptFacts(Units(s));
    SqueezeFacts(Kept(Units(s)), true);
  }

  // As many characters as were copied are counted in it.
  lemma TidiedCounts(s: seq<byte>, max: nat)
    ensures |Units(Flatten(Tidied(s, max)))| == |Tidied(s, max)|
  {
    hide Tidied;
    TidiedIsTidy(s, max);
    UnitsOfFlatten(Tidied(s, max));
  }

  // Copying a copy changes nothing, and a smaller limit copies a prefix.
  lemma TidiedTwice(s: seq<byte>, max: nat, max': nat)
    ensures Tidied(Flatten(Tidied(s, max)), max') == Clip(Tidied(s, max), max')
  {
    hide Lead, Units, Kept, Squeeze, Breaks;
    var us := Tidied(s, max);
    TidiedIsTidy(s, max);
    UnitsOfFlatten(us);
    KeptFacts(us);
    SqueezeFacts(us, true);
  }

  lemma SmallerIsPrefix(s: seq<byte>, max: nat, max': nat)
    requires max <= max'
    ensures Tidied(s, max) == Clip(Tidied(s, max'), max) && Flatten(Tidied(s, max)) <= Flatten(Tidied(s, max'))
  {
    var us := Squeeze(Kept(Units(s)), true);
    var a, b := Clip(us, max), Clip(us, max');
    assert a == Clip(b, max) && b == a + b[|a|..];
    FlattenConcat(a, b[|a|..]);
  }

  // ---------------------------------------------------------------------------
  // The copying loop
  // ---------------------------------------------------------------------------

  // What is still to be copied from position `i` on.
  function Ahead(s: seq<byte>, i: nat, flag: bool): seq<Unit>
    requires i <= |s|
  {
    Squeeze(Kept(Units(s[i..])), flag)
  }

  // One round of the loop.
  lemma AheadStep(s: seq<byte>, i: nat, flag: bool)
    requires i < |s|
    ensures Ahead(s, i, flag) ==
            var n := Lead(s[i]);
            if Breaks(s[i]) then Ahead(s, i + 1, flag)
            else if s[i] == BLANK && flag then Ahead(s, i + 1, true)
            else if s[i] == BLANK then [s[i..i + 1]] + Ahead(s, i + 1, true)
            else if n > 0 && i + n <= |s| then [s[i..i + n]] + Ahead(s, i + n, false)
            else []
  {
    hide Lead;
    var t, n := s[i..], Lead(s[i]);
    LeadBytes(s[i]);
    if n > 0 && n <= |t| {
      assert t[..n] == s[i..i + n] && t[n..] == s[i + n..];
      UnitsStep(s[i..i + n], Units(t[n..]), flag);
    }
  }

  lemma UnitsStep(u: Unit, us: seq<Unit>, flag: bool)
    requires u != []
    ensures Squeeze(Kept([u] + us), flag) ==
            if Breaks(u[0]) then Squeeze(Kept(us), flag)
            else if u[0] != BLANK then [u] + Squeeze(Kept(us), false)
            else if flag then Squeeze(Kept(us), true)
            else [u] + Squeeze(Kept(us), true)
  {
    assert ([u] + us)[1..] == us;
    assert ([u] + Kept(us))[1..] == Kept(us);
  }

  // The copy: the pieces done, and of those ahead as many as the limit allows.
  function Planned(done: seq<Unit>, more: seq<Unit>, max: nat): seq<Unit>
    requires |done| <= max
  {
    done + Clip(more, max - |done|)
  }

  // The pieces done and the pieces ahead make up the copy.
  lemma TakeStep(done: seq<Unit>, u: Unit, more: seq<Unit>, max: nat)
    requires |done| < max
    ensures done + Clip([u] + more, max - |done|) == (done + [u]) + Clip(more, max - |done| - 1)
  {
    assert [u] + Clip(more, max - |done| - 1) == Clip([u] + more, max - |done|);
  }

  lemma FlattenSnoc(done: seq<Unit>, u: Unit)
    ensures Flatten(done + [u]) == Flatten(done) + u
  {
    FlattenConcat(done, [u]);
    NilLeft(u);
    assert Flatten([u]) == u;
  }

  // One more piece, and the room it needs.
  lemma CopyStep(done: seq<Unit>, u: Unit, more: seq<Unit>, max: nat)
    requires |done| < max
    ensures done + Clip([u] + more, max - |done|) == (done + [u]) + Clip(more, max - |done| - 1)
    ensures Flatten(done + [u]) == Flatten(done) + u
    ensures |Flatten(done + [u])| <= |Flatten(done + Clip([u] + more, max - |done|))|
  {
    hide Clip;
    TakeStep(done, u, more, max);
    FlattenSnoc(done, u);
    FlattenConcat(done + [u], Clip(more, max - |done| - 1));
  }

  // memcpy to the write position.
  method Append(dest: array<byte>, p: nat, u: Unit)
    requires p + |u| <= dest.Length
    modifies dest
    ensures dest[..p + |u|] == old(dest[..p]) + u
    ensures forall k :: p + |u| <= k < dest.Length ==> dest[k] == old(dest[k])
  {
    forall k | 0 <= k < |u| {
      dest[p + k] := u[k];
    }
  }

  // One piece is copied: `done` is in the buffer, `more` is still to come.
  method CopyUnit(dest: array<byte>, p: nat, u: Unit, ghost done: seq<Unit>, ghost more: seq<Unit>, ghost max: nat)
    requires |done| < max && p == |Flatten(done)| && p <= dest.Length && dest[..p] == Flatten(done)
    requires |Flatten(Planned(done, [u] + more, max))| < dest.Length
    modifies dest
    ensures Planned(done, [u] + more, max) == Planned(done + [u], more, max)
    ensures p + |u| == |Flatten(done + [u])| < dest.Length && dest[..p + |u|] == Flatten(done + [u])
    ensures forall k :: p + |u| <= k < dest.Length ==> dest[k] == old(dest[k])
  {
    hide Clip, Flatten;
    CopyStep(done, u, more, max);
    Append(dest, p, u);
  }

  // utf8_strncpy into a buffer with room for the copy and its terminator.
  method Utf8Strncpy(dest: array<byte>, src: seq<byte>, max: nat)
    requires |Flatten(Tidied(src, max))| < dest.Length
    modifies dest
    ensures max == 0 ==> dest[..] == old(dest[..])
    ensures max > 0 ==> var r := Flatten(Tidied(src, max));
                        && dest[..|r|] == r && dest[|r|] == 0
                        && forall k :: |r| < k < dest.Length ==> dest[k] == old(dest[k])
  {
    hide Lead, Breaks, Ahead, Clip, Tidied, Flatten, Planned;
    if max == 0 {
      return;
    }
    ghost var all, done := Tidied(src, max), [];
    var p, flag, i, n := 0, true, 0, 0;
    Start(src, max);
    while i < |src| && n < max
      invariant i <= |src| && n == |done| <= max && Planned(done, Ahead(src, i, flag), max) == all
      invariant p == |Flatten(done)| < dest.Length && dest[..p] == Flatten(done)
      invariant forall k :: p <= k < dest.Length ==> dest[k] == old(dest[k])
    {
      AheadStep(src, i, flag);
      var tmp := Lead(src[i]);
      if Breaks(src[i]) {
        i := i + 1;
        continue;
      }
      if src[i] == BLANK {
        if !flag {
          CopyUnit(dest, p, src[i..i + 1], done, Ahead(src, i + 1, true), max);
          done := done + [src[i..i + 1]];
          p, n, flag := p + 1, n + 1, true;
        }
        i := i + 1;
        continue;
      }
      if tmp > 0 && i + tmp <= |src| {
        CopyUnit(dest, p, src[i..i + tmp], done, Ahead(src, i + tmp, false), max);
        done := done + [src[i..i + tmp]];
        p, i, n, flag := p + tmp, i + tmp, n + 1, false;
      } else {
        break;
      }
    }
    NothingAhead(src, flag);
    NothingTaken(done, Ahead(src, i, flag), max);
    dest[p] := 0;
  }

  lemma NothingAhead(s: seq<byte>, flag: bool)
    ensures Ahead(s, |s|, flag) == []
  {
  }

  lemma NothingTaken(done: seq<Unit>, us: seq<Unit>, max: nat)
    requires |done| <= max
    ensures us == [] || |done| == max ==> Planned(done, us, max) == done
  {
  }

  lemma Start(s: seq<byte>, max: nat)
    ensures Planned([], Ahead(s, 0, true), max) == Tidied(s, max)
    ensures Flatten<byte>([]) == []
  {
    DropAll(s);
    NilLeft(Tidied(s, max));
  }
}
