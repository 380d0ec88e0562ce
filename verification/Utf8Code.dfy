// The two functions on strings that really are UTF-8: the encoding of section 2 of RFC
// 2279, by arithmetic on code points.

module Utf8Code {
  import opened Bytes
  import opened Output
  import opened Utf8

  const MAX := 0x8000_0000

  // The byte with a given number, bit by bit.
  function Octet(n: nat): (b: byte)
    requires n < 256
    ensures b as int == n
  {
    if n == 0 then 0
    else
      var half := Octet(n / 2);
      Doubled(half, n / 2);
      if n % 2 == 0 then half << 1 else (half << 1) + 1
  }

  lemma Doubled(b: byte, n: nat)
    requires b as int == n < 128
    ensures (b << 1) as int == 2 * n && ((b << 1) + 1) as int == 2 * n + 1
  {
  }

  // A continuation byte: six bits.
  function Six(n: nat): byte {
    Octet(0x80 + n % 64)
  }

  // One code point, in one to six bytes.
  function Encoded(c: nat): (u: Unit)
    requires c < MAX
    ensures |u| == if c < 0x80 then 1 else if c < 0x800 then 2 else if c < 0x1_0000 then 3
                   else if c < 0x20_0000 then 4 else if c < 0x400_0000 then 5 else 6
  {
    if c < 0x80 then [Octet(c)]
    else if c < 0x800 then [Octet(0xC0 + c / 64), Six(c)]
    else if c < 0x1_0000 then [Octet(0xE0 + c / 4096), Six(c / 64), Six(c)]
    else if c < 0x20_0000 then [Octet(0xF0 + c / 262144), Six(c / 4096), Six(c / 64), Six(c)]
    else if c < 0x400_0000 then
      [Octet(0xF8 + c / 16777216), Six(c / 262144), Six(c / 4096), Six(c / 64), Six(c)]
    else
      [Octet(0xFC + c / 1073741824), Six(c / 16777216), Six(c / 262144), Six(c / 4096), Six(c / 64), Six(c)]
  }

  predicate Points(cs: seq<nat>) {
    forall i :: 0 <= i < |cs| ==> cs[i] < MAX
  }

  function EncodedAll(cs: seq<nat>): (us: seq<Unit>)
    requires Points(cs)
    ensures |us| == |cs| && forall i :: 0 <= i < |cs| ==> us[i] == Encoded(cs[i])
  {
    if cs == [] then [] else [Encoded(cs[0])] + EncodedAll(cs[1..])
  }

  // The lengths that bytes announce.
  lemma LeadIs(b: byte)
    ensures var n := b as int;
            && (n < 0x80 ==> Lead(b) == 1)
            && (0xC0 <= n < 0xE0 ==> Lead(b) == 2)
            && (0xE0 <= n < 0xF0 ==> Lead(b) == 3)
            && (0xF0 <= n < 0xF8 ==> Lead(b) == 4)
            && (0xF8 <= n < 0xFC ==> Lead(b) == 5)
            && (0xFC <= n < 0xFE ==> Lead(b) == 6)
  {
    LeadByOrder(b);
  }

  lemma LeadByOrder(b: byte)
    ensures b < 0x80 ==> Lead(b) == 1
    ensures 0xC0 <= b < 0xE0 ==> Lead(b) == 2
    ensures 0xE0 <= b < 0xF0 ==> Lead(b) == 3
    ensures 0xF0 <= b < 0xF8 ==> Lead(b) == 4
    ensures 0xF8 <= b < 0xFC ==> Lead(b) == 5
    ensures 0xFC <= b < 0xFE ==> Lead(b) == 6
  {
  }

  // An encoded code point is one character.
  lemma OneUnit(c: nat)
    requires c < MAX
    ensures IsUnit(Encoded(c))
  {
    hide Lead, Octet, Six;
    if c < 0x80 {
      LeadIs(Octet(c));
    } else if c < 0x800 {
      LeadIs(Octet(0xC0 + c / 64));
    } else if c < 0x1_0000 {
      LeadIs(Octet(0xE0 + c / 4096));
    } else if c < 0x20_0000 {
      LeadIs(Octet(0xF0 + c / 262144));
    } else if c < 0x400_0000 {
      LeadIs(Octet(0xF8 + c / 16777216));
    } else {
      LeadIs(Octet(0xFC + c / 1073741824));
    }
  }

  lemma AllAreUnits(cs: seq<nat>)
    requires Points(cs)
    ensures AllUnits(EncodedAll(cs))
  {
    hide Encoded, IsUnit;
    forall u | u in EncodedAll(cs) ensures IsUnit(u) {
      var i :| 0 <= i < |cs| && u == Encoded(cs[i]);
      OneUnit(cs[i]);
    }
  }

  // Of the encoding of any code points as many characters are counted as there are code
  // points, and the characters are theirs.
  lemma CountsCodePoints(cs: seq<nat>)
    requires Points(cs)
    ensures Units(Flatten(EncodedAll(cs))) == EncodedAll(cs) && |Units(Flatten(EncodedAll(cs)))| == |cs|
  {
    AllAreUnits(cs);
    UnitsOfFlatten(EncodedAll(cs));
  }

  lemma {:induction false} UnitsBefore(us: seq<Unit>, t: seq<byte>)
    requires AllUnits(us)
    ensures Units(Flatten(us) + t) == us + Units(t)
  {
    hide IsUnit, Units;
    if us == [] {
      NilLeft(t);
      NilLeft(Units(t));
    } else {
      assert us[0] in us;
      Assoc(us[0], Flatten(us[1..]), t);
      UnitBefore(us[0], Flatten(us[1..]) + t);
      UnitsBefore(us[1..], t);
      assert us == [us[0]] + us[1..];
      Assoc([us[0]], us[1..], Units(t));
    }
  }

  lemma UnitBefore(u: Unit, t: seq<byte>)
    requires IsUnit(u)
    ensures Units(u + t) == [u] + Units(t)
  {
    hide Lead;
    assert (u + t)[..|u|] == u && (u + t)[|u|..] == t && (u + t)[0] == u[0];
  }

  lemma NoLead(b: byte)
    requires 0x80 <= b as int < 0xC0 || b as int >= 0xFE
    ensures Lead(b) == 0
  {
    NoLeadByOrder(b);
  }

  lemma NoLeadByOrder(b: byte)
    ensures 0x80 <= b < 0xC0 ==> Lead(b) == 0
    ensures b >= 0xFE ==> Lead(b) == 0
  {
  }

  // What follows does not count when its first byte is a continuation byte, 0xFE or 0xFF.
  lemma StopsOutOfPlace(cs: seq<nat>, b: byte, more: seq<byte>)
    requires Points(cs) && (0x80 <= b as int < 0xC0 || b as int >= 0xFE)
    ensures Units(Flatten(EncodedAll(cs)) + ([b] + more)) == EncodedAll(cs)
  {
    hide Lead;
    AllAreUnits(cs);
    UnitsBefore(EncodedAll(cs), [b] + more);
    NoLead(b);
    NilLeft(EncodedAll(cs));
  }

  // Nor does a code point that is cut off before its last byte.
  lemma StopsCutOff(cs: seq<nat>, c: nat, k: nat)
    requires Points(cs) && c < MAX && k < |Encoded(c)|
    ensures Units(Flatten(EncodedAll(cs)) + Encoded(c)[..k]) == EncodedAll(cs)
  {
    hide Lead, Encoded;
    AllAreUnits(cs);
    UnitsBefore(EncodedAll(cs), Encoded(c)[..k]);
    OneUnit(c);
    NilLeft(EncodedAll(cs));
  }

  // ---------------------------------------------------------------------------
  // The tidying copy
  // ---------------------------------------------------------------------------

  // CR, LF and TAB dropped; of the spaces those in front, and those behind a space.
  function NoBreaks(cs: seq<nat>): seq<nat> {
    if cs == [] then []
    else (if cs[0] == 13 || cs[0] == 10 || cs[0] == 9 then [] else [cs[0]]) + NoBreaks(cs[1..])
  }

  function NoBlanks(cs: seq<nat>, flag: bool): seq<nat> {
    if cs == [] then []
    else (if cs[0] == 32 && flag then [] else [cs[0]]) + NoBlanks(cs[1..], cs[0] == 32)
  }

  lemma {:induction false} PointsStay(cs: seq<nat>, flag: bool)
    requires Points(cs)
    ensures Points(NoBreaks(cs)) && Points(NoBlanks(cs, flag))
    decreases cs
  {
    if cs != [] {
      PointsStay(cs[1..], cs[0] == 32);
    }
  }

  lemma FirstIs(c: nat)
    requires c < MAX
    ensures (First(Encoded(c)) == CR <==> c == 13) && (First(Encoded(c)) == LF <==> c == 10)
    ensures (First(Encoded(c)) == TAB <==> c == 9) && (First(Encoded(c)) == BLANK <==> c == 32)
  {
    hide Octet, Six;
    var n := if c < 0x80 then c else if c < 0x800 then 0xC0 + c / 64 else if c < 0x1_0000 then 0xE0 + c / 4096
             else if c < 0x20_0000 then 0xF0 + c / 262144 else if c < 0x400_0000 then 0xF8 + c / 16777216
             else 0xFC + c / 1073741824;
    assert Encoded(c)[0] == Octet(n);
    AsciiIs(Octet(n));
  }

  lemma AsciiIs(b: byte)
    ensures (b == CR <==> b as int == 13) && (b == LF <==> b as int == 10)
    ensures (b == TAB <==> b as int == 9) && (b == BLANK <==> b as int == 32)
  {
  }

  lemma {:induction false} KeptPoints(cs: seq<nat>)
    requires Points(cs)
    ensures Points(NoBreaks(cs)) && Kept(EncodedAll(cs)) == EncodedAll(NoBreaks(cs))
  {
    hide Encoded;
    PointsStay(cs, true);
    if cs != [] {
      FirstIs(cs[0]);
      KeptPoints(cs[1..]);
      var us, more := EncodedAll(cs), NoBreaks(cs[1..]);
      assert us[1..] == EncodedAll(cs[1..]);
      assert ([cs[0]] + more)[1..] == more;
      NilLeft(more);
    }
  }

  lemma {:induction false} SqueezedPoints(cs: seq<nat>, flag: bool)
    requires Points(cs)
    ensures Points(NoBlanks(cs, flag)) && Squeeze(EncodedAll(cs), flag) == EncodedAll(NoBlanks(cs, flag))
    decreases cs
  {
    hide Encoded;
    PointsStay(cs, flag);
    if cs != [] {
      FirstIs(cs[0]);
      SqueezedPoints(cs[1..], cs[0] == 32);
      var us, more := EncodedAll(cs), NoBlanks(cs[1..], cs[0] == 32);
      assert us[1..] == EncodedAll(cs[1..]);
      assert ([cs[0]] + more)[1..] == more;
      NilLeft(more);
    }
  }

  // The code points that are copied.
  function Copied(cs: seq<nat>, max: nat): seq<nat> {
    var ds := NoBlanks(NoBreaks(cs), true);
    if |ds| <= max then ds else ds[..max]
  }

  // Copying an encoding copies the encoding of the tidied code points.
  lemma CopiesCodePoints(cs: seq<nat>, max: nat)
    requires Points(cs)
    ensures Points(Copied(cs, max)) && Tidied(Flatten(EncodedAll(cs)), max) == EncodedAll(Copied(cs, max))
  {
    hide Units, Kept, Squeeze, Encoded, NoBreaks, NoBlanks;
    CountsCodePoints(cs);
    KeptPoints(cs);
    SqueezedPoints(NoBreaks(cs), true);
  }

  lemma {:induction false} PlainStays(cs: seq<nat>, flag: bool)
    requires forall i :: 0 <= i < |cs| ==> cs[i] != 13 && cs[i] != 10 && cs[i] != 9 && cs[i] != 32
    ensures NoBreaks(cs) == cs == NoBlanks(cs, flag)
    decreases cs
  {
    if cs != [] {
      PlainStays(cs[1..], cs[0] == 32);
      assert cs == [cs[0]] + cs[1..];
    }
  }

  // Without CR, LF, TAB and space the encoding is copied unchanged, up to the limit.
  lemma CopiesPlain(cs: seq<nat>, max: nat)
    requires Points(cs) && forall i :: 0 <= i < |cs| ==> cs[i] != 13 && cs[i] != 10 && cs[i] != 9 && cs[i] != 32
    ensures var n := if |cs| <= max then |cs| else max;
            Points(cs[..n]) && Flatten(Tidied(Flatten(EncodedAll(cs)), max)) == Flatten(EncodedAll(cs[..n]))
  {
    hide Encoded, Tidied;
    PlainStays(cs, true);
    CopiesCodePoints(cs, max);
    DropAll(cs);
  }
}
