// The base 64 alphabet, the encoder and its overflow test.
// Bits are grouped as section 4 of RFC 4648 prescribes: three bytes make one
// 24-bit group, and the group is cut into four sextets.

module Base64 {
  import opened Bytes
  import opened Output

  const PAD: byte := 61      // '='
  const NEWLINE: byte := 10  // '\n'

  // The 64-character table b64str, indexed by a sextet.
  function Alphabet(v: bv8): (c: byte) {
    if v < 26 then 65 + v
    else if v < 52 then 71 + v
    else if v < 62 then v - 4
    else if v == 62 then 43
    else 47
  }

  // The reverse table b64; 0xff stands for its entry -1.
  function Sextet(c: byte): (v: bv8) {
    if 65 <= c <= 90 then c - 65
    else if 97 <= c <= 122 then c - 71
    else if 48 <= c <= 57 then c + 4
    else if c == 43 then 62
    else if c == 47 then 63
    else 0xff
  }

  predicate IsBase64(c: byte) {
    Sextet(c) != 0xff
  }

  // The two tables are inverse bijections between the sextets and the
  // alphabet, and neither the pad nor the newline is a letter.
  lemma AlphabetInverse(v: bv8, c: byte)
    ensures v < 64 ==> IsBase64(Alphabet(v)) && Sextet(Alphabet(v)) == v
    ensures IsBase64(c) ==> Sextet(c) < 64 && Alphabet(Sextet(c)) == c
    ensures !IsBase64(PAD) && !IsBase64(NEWLINE)
  {
  }

  // Three bytes as one 24-bit group, and the four sextets of a group.
  function Group(a: byte, b: byte, c: byte): bv24 {
    (a as bv24 << 16) | (b as bv24 << 8) | c as bv24
  }

  function Cut0(g: bv24): bv8 { ((g >> 18) & 0x3f) as bv8 }

  function Cut1(g: bv24): bv8 { ((g >> 12) & 0x3f) as bv8 }

  function Cut2(g: bv24): bv8 { ((g >> 6) & 0x3f) as bv8 }

  function Cut3(g: bv24): bv8 { (g & 0x3f) as bv8 }

  // One quantum: missing input bytes count as zero, and there are as many
  // letters as sextets touched by input; the rest is padding.
  function EncodeGroup(s: seq<byte>): (r: seq<byte>)
    requires 1 <= |s| <= 3
    ensures |r| == 4
  {
    var g := Group(s[0], if |s| > 1 then s[1] else 0, if |s| > 2 then s[2] else 0);
    [Alphabet(Cut0(g)),
     Alphabet(Cut1(g)),
     if |s| > 1 then Alphabet(Cut2(g)) else PAD,
     if |s| > 2 then Alphabet(Cut3(g)) else PAD]
  }

  function Encode(s: seq<byte>): seq<byte> {
    if s == [] then []
    else if |s| <= 3 then EncodeGroup(s)
    else EncodeGroup(s[..3]) + Encode(s[3..])
  }

  // BASE64_LENGTH over the unbounded integers: four letters per started group.
  function EncodedLength(n: nat): nat {
    (n + 2) / 3 * 4
  }

  lemma {:induction false} EncodeLength(s: seq<byte>)
    ensures |Encode(s)| == EncodedLength(|s|)
  {
    if |s| > 3 {
      EncodeLength(s[3..]);
    }
  }

  // The shift expressions of the C code.
  function Shift0(a: byte): bv8 { (a >> 2) & 0x3f }

  function Shift1(a: byte, b: byte): bv8 { ((a << 4) + (b >> 4)) & 0x3f }

  function Shift2(b: byte, c: byte): bv8 { ((b << 2) + (c >> 6)) & 0x3f }

  function Shift3(c: byte): bv8 { c & 0x3f }

  // They pick the sextets of the 24-bit group.
  lemma CutsByShifting(a: byte, b: byte, c: byte)
    ensures Cut0(Group(a, b, c)) == Shift0(a)
    ensures Cut1(Group(a, b, c)) == Shift1(a, b)
    ensures Cut2(Group(a, b, c)) == Shift2(b, c)
    ensures Cut3(Group(a, b, c)) == Shift3(c)
  {
  }

  // One quantum as the C code computes it.
  lemma EncodeGroupByShifting(s: seq<byte>)
    requires 1 <= |s| <= 3
    ensures var b := if |s| > 1 then s[1] else 0;
            var c := if |s| > 2 then s[2] else 0;
            EncodeGroup(s) == [Alphabet(Shift0(s[0])),
                               Alphabet(Shift1(s[0], b)),
                               if |s| > 1 then Alphabet(Shift2(b, c)) else PAD,
                               if |s| > 2 then Alphabet(Shift3(c)) else PAD]
  {
    CutsByShifting(s[0], if |s| > 1 then s[1] else 0, if |s| > 2 then s[2] else 0);
  }

  // One character of the group `g` behind `b`.
  method Letter(c: byte, cur: Cursor, ghost b: seq<byte>, ghost g: seq<byte>, ghost k: nat)
    requires k < |g| && g[k] == c && cur.Holds(b + g[..k]) && cur.left != 0
    modifies cur, cur.buf
    ensures cur.Holds(b + g[..k + 1]) && cur.left == old(cur.left) - 1
    ensures cur.left == 0 || k + 1 == |g| ==> cur.Holds(b + g)
  {
    Grow(b, g, k);
    cur.PutAfter(c, b + g[..k]);
    if cur.left == 0 {
      cur.Full(b + g[..k + 1], b + g);
    }
    DropAll(g);
  }

  // The last two letters of a group, or the pads in their place.
  method HalfRound(s: seq<byte>, inlen0: nat, cur: Cursor, ghost b: seq<byte>, ghost g: seq<byte>) returns (inlen: nat)
    requires s != [] && inlen0 == |s| - 1 && |g| == 4 && cur.Holds(b + g[..2]) && cur.left != 0
    requires g[2] == if |s| > 1 then Alphabet(Shift2(s[1], if |s| > 2 then s[2] else 0)) else PAD
    requires g[3] == if |s| > 2 then Alphabet(Shift3(s[2])) else PAD
    modifies cur, cur.buf
    ensures cur.Holds(b + g) && cur.left < old(cur.left)
    ensures cur.left != 0 ==> inlen == if |s| <= 3 then 0 else |s| - 3
  {
    hide Alphabet, Shift2, Shift3;
    inlen := inlen0;
    if inlen != 0 {
      inlen := inlen - 1;
      Letter(Alphabet(Shift2(s[1], if inlen != 0 then s[2] else 0)), cur, b, g, 2);
    } else {
      Letter(PAD, cur, b, g, 2);
    }
    if cur.left == 0 { return; }
    Letter(if inlen != 0 then Alphabet(Shift3(s[2])) else PAD, cur, b, g, 3);
    if cur.left == 0 { return; }
    if inlen != 0 { inlen := inlen - 1; }
  }

  // One round of the loop of base64_encode: up to four letters for the bytes at
  // the head of `s`, stopping as soon as the output is full.
  method EncodeRound(s: seq<byte>, cur: Cursor, ghost b: seq<byte>) returns (inlen: nat)
    requires s != [] && cur.Holds(b) && cur.left != 0
    modifies cur, cur.buf
    ensures cur.Holds(b + EncodeGroup(s[..Min(3, |s|)])) && cur.left < old(cur.left)
    ensures cur.left != 0 ==> inlen == if |s| <= 3 then 0 else |s| - 3
  {
    hide Alphabet, EncodeGroup, Shift0, Shift1, Shift2, Shift3;
    ghost var g := EncodeGroup(s[..Min(3, |s|)]);
    EncodeGroupByShifting(s[..Min(3, |s|)]);
    inlen := |s|;
    NilLeft(b);
    Letter(Alphabet(Shift0(s[0])), cur, b, g, 0);
    if cur.left == 0 { return; }
    inlen := inlen - 1;
    Letter(Alphabet(Shift1(s[0], if inlen != 0 then s[1] else 0)), cur, b, g, 1);
    if cur.left == 0 { return; }
    inlen := HalfRound(s, inlen, cur, b, g);
  }

  lemma EncodeStep(b: seq<byte>, s: seq<byte>)
    requires s != []
    ensures var group := EncodeGroup(s[..Min(3, |s|)]);
            b + Encode(s) == b + group + if |s| <= 3 then [] else Encode(s[3..])
  {
    DropAll(s);
    var group := EncodeGroup(s[..Min(3, |s|)]);
    Assoc(b, group, if |s| <= 3 then [] else Encode(s[3..]));
    NilLeft(group);
  }

  // base64_encode: fill `out[..outlen]` with as much of the encoding as fits,
  // and add a zero byte when there is room left.
  method Base64Encode(input: seq<byte>, out: array<byte>, outlen: nat)
    requires outlen <= out.Length
    modifies out
    ensures var e := Clip(Encode(input) + [0], outlen);
            out[..|e|] == e && out[outlen..] == old(out[outlen..])
  {
    hide EncodeGroup, Alphabet;
    var cur := new Cursor(out, outlen);
    var p, inlen := 0, |input|;
    ghost var b, e := [], Encode(input);
    DropAll(input);
    NilLeft(e);
    while inlen != 0 && cur.left != 0
      invariant cur.Holds(b) && cur.buf == out && cur.limit == outlen && fresh(cur) && cur.beyond == old(out[outlen..])
      invariant p <= |input| && (cur.left != 0 && inlen != 0 ==> p + inlen == |input| && e == b + Encode(input[p..]))
      invariant cur.left != 0 && inlen == 0 ==> e == b
      invariant b <= e
      decreases cur.left
    {
      var s := input[p..];
      EncodeStep(b, s);
      inlen := EncodeRound(s, cur, b);
      b := b + EncodeGroup(s[..Min(3, |s|)]);
      if cur.left == 0 { break; }
      if inlen != 0 {
        Drops(input, p, 3);
        p := p + 3;
      }
    }
    if cur.left != 0 {
      cur.PutAfter(0, e);
    } else {
      cur.Full(b, e + [0]);
    }
  }

  // One more than the largest 64-bit size_t.
  const SIZE: nat := 0x1_0000_0000_0000_0000

  // 1 + BASE64_LENGTH(n) as size_t arithmetic computes it.
  function WrappedLength(n: nat): nat {
    (1 + (n + 2) % SIZE / 3 * 4 % SIZE) % SIZE
  }

  // The test `inlen > outlen` detects exactly the lengths that do not fit.
  lemma OverflowTestIsExact(n: nat)
    requires n < SIZE
    ensures n > WrappedLength(n) <==> 1 + EncodedLength(n) >= SIZE
    ensures n <= WrappedLength(n) ==> WrappedLength(n) == 1 + EncodedLength(n)
  {
    if n + 2 < SIZE {
      var k := (n + 2) / 3;
      assert (n + 2) % SIZE == n + 2;
      if 4 * k + 1 < SIZE {
        assert (4 * k) % SIZE == 4 * k;
      } else {
        assert 4 * k < 2 * SIZE;
        assert (4 * k) % SIZE == if 4 * k < SIZE then 4 * k else 4 * k - SIZE;
      }
    } else {
      assert (n + 2) % SIZE == n + 2 - SIZE;
    }
  }

  // base64_encode_alloc: the encoding with a closing zero in a block of its own,
  // or null when its length does not fit a size_t.
  method Base64EncodeAlloc(input: seq<byte>) returns (out: array?<byte>, len: nat)
    requires |input| < SIZE
    ensures if 1 + EncodedLength(|input|) >= SIZE then out == null && len == 0
            else out != null && fresh(out) && out[..] == Encode(input) + [0] && len == |Encode(input)|
  {
    var outlen := WrappedLength(|input|);
    OverflowTestIsExact(|input|);
    EncodeLength(input);
    if |input| > outlen {
      return null, 0;
    }
    out := new byte[outlen];
    Base64Encode(input, out, outlen);
    len := outlen - 1;
    ghost var e := Encode(input) + [0];
    assert out[..] == out[..|e|] == e;
  }

  // What clear_garbage keeps.
  function Cleared(s: seq<byte>): (r: seq<byte>)
    ensures |r| <= |s|
  {
    if s == [] then []
    else (if IsBase64(s[0]) || s[0] == PAD then [s[0]] else []) + Cleared(s[1..])
  }

  // Drop the character at i by moving those behind it forward.
  method CloseGap(inbuf: array<byte>, i: nat, m: nat)
    requires i <= m < inbuf.Length
    modifies inbuf
    ensures inbuf[..i] == old(inbuf[..i])
    ensures inbuf[i..m] == old(inbuf[i + 1..m + 1])
    ensures inbuf[m..] == old(inbuf[m..])
  {
    forall k | i <= k < m {
      inbuf[k] := inbuf[k + 1];
    }
  }

  // clear_garbage: close up every gap in place, then end the text with a zero.
  method ClearGarbage(inbuf: array<byte>, n0: nat) returns (ghost n: nat)
    requires n0 < inbuf.Length
    modifies inbuf
    ensures n <= n0 && inbuf[..n] == Cleared(old(inbuf[..n0])) && inbuf[n] == 0
  {
    hide IsBase64;
    var i, m := 0, n0;
    NilLeft(Cleared(inbuf[..n0]));
    while m > 0 && i < m
      invariant 0 <= i <= m <= n0
      invariant inbuf[..i] + Cleared(inbuf[i..m]) == Cleared(old(inbuf[..n0]))
      decreases m - i
    {
      ghost var keep, tail := inbuf[..i], inbuf[i..m];
      if IsBase64(inbuf[i]) || inbuf[i] == PAD {
        assert inbuf[..i + 1] == keep + [inbuf[i]] && inbuf[i + 1..m] == tail[1..];
        Assoc(keep, [inbuf[i]], Cleared(tail[1..]));
        i := i + 1;
      } else {
        NilLeft(Cleared(tail[1..]));
        m := m - 1;
        CloseGap(inbuf, i, m);
        assert inbuf[i..m] == tail[1..];
      }
    }
    NilLeft(inbuf[..i]);
    inbuf[m] := 0;
    n := m;
  }
}
