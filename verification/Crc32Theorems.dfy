// What the table-driven loop computes, and what the checksum detects.

module Crc32Theorems {
  import opened Bytes
  import opened Crc32

  // ---------------------------------------------------------------------------
  // The table-driven loop
  // ---------------------------------------------------------------------------

  // The eight steps of one byte, by table.
  lemma TableStep(c: word, b: byte)
    ensures Next(c, b) == Xor(c >> 8, Entry(c, b))
  {
    hide Bits8, Tab, Basis, Xor, Low8;
    var x := Xor(c, b as word);
    Bits8Split(x);
    LowByte(c, b);
    TabIsBasis(Low8(x) as byte);
    BasisIs(Low8(x) as byte);
  }

  // The table entry that the next byte selects.
  function Entry(c: word, b: byte): word {
    LowByte(c, b);
    Tab(((c ^ (b as word)) & 0xFF) as byte)
  }

  lemma LowByte(c: word, b: byte)
    ensures (c ^ (b as word)) & 0xFF == Low8(Xor(c, b as word)) <= 0xFF
    ensures Xor(c, b as word) >> 8 == c >> 8
    ensures (Low8(Xor(c, b as word)) as byte) as word == Low8(Xor(c, b as word))
  {
  }

  lemma {:induction false} DivideConcat(c: word, a: seq<byte>, b: seq<byte>)
    ensures Divide(c, a + b) == Divide(Divide(c, a), b)
    decreases a
  {
    hide Next;
    if a == [] {
      NilLeft(b);
    } else {
      assert (a + b)[0] == a[0] && (a + b)[1..] == a[1..] + b;
      DivideConcat(Next(c, a[0]), a[1..], b);
    }
  }

  lemma DivideSnoc(c: word, s: seq<byte>, i: nat)
    requires i < |s|
    ensures Divide(c, s[..i + 1]) == Next(Divide(c, s[..i]), s[i])
  {
    hide Next;
    assert s[..i + 1] == s[..i] + [s[i]];
    DivideConcat(c, s[..i], [s[i]]);
    assert [s[i]][1..] == [];
  }

  // CRC32_hash
  method Crc32Hash(crc: word, buf: seq<byte>) returns (r: word)
    ensures r == Crc(crc, buf)
  {
    hide Next, Xor, Entry, Flip, Divide;
    ghost var start := Flip(crc);
    var crc32 := Flip(crc);
    DivideNothing(start, buf);
    var i := 0;
    while i < |buf|
      invariant i <= |buf| && crc32 == Divide(start, buf[..i])
    {
      TableStep(crc32, buf[i]);
      DivideSnoc(start, buf, i);
      crc32 := Xor(crc32 >> 8, Entry(crc32, buf[i]));
      i := i + 1;
    }
    DropAll(buf);
    r := Flip(crc32);
  }

  lemma DivideNothing(c: word, s: seq<byte>)
    ensures Divide(c, s[..0]) == c
  {
  }

  // ---------------------------------------------------------------------------
  // Laws
  // ---------------------------------------------------------------------------

  lemma FlipTwice(a: word)
    ensures Flip(Flip(a)) == a
  {
  }

  // The sum of a file read in pieces is the sum of the file.
  lemma Chains(c: word, a: seq<byte>, b: seq<byte>)
    ensures Crc(Crc(c, a), b) == Crc(c, a + b)
  {
    hide Flip, Divide;
    FlipTwice(Divide(Flip(c), a));
    DivideConcat(Flip(c), a, b);
  }

  function Xor8(a: byte, b: byte): byte { a ^ b }

  function XorBytes(a: seq<byte>, b: seq<byte>): (r: seq<byte>)
    requires |a| == |b|
    ensures |r| == |a|
  {
    if a == [] then [] else [Xor8(a[0], b[0])] + XorBytes(a[1..], b[1..])
  }

  lemma XorComm(a: word, b: word)
    ensures Xor(a, b) == Xor(b, a)
  {
  }

  lemma XorAssoc(a: word, b: word, c: word)
    ensures Xor(Xor(a, b), c) == Xor(a, Xor(b, c))
  {
  }

  lemma XorSelf(a: word)
    ensures Xor(Xor(a, a), a) == a
  {
  }

  lemma XorWiden(x: byte, y: byte)
    ensures Xor8(x, y) as word == Xor(x as word, y as word)
  {
  }

  lemma XorSwap(a: word, b: word, c: word, d: word)
    ensures Xor(Xor(a, b), Xor(c, d)) == Xor(Xor(a, c), Xor(b, d))
  {
    hide Xor;
    XorAssoc(a, b, Xor(c, d));
    XorAssoc(b, c, d);
    XorComm(b, c);
    XorAssoc(c, b, d);
    XorAssoc(a, c, Xor(b, d));
  }

  lemma {:induction false} DivideXor(c: word, d: word, a: seq<byte>, b: seq<byte>)
    requires |a| == |b|
    ensures Divide(Xor(c, d), XorBytes(a, b)) == Xor(Divide(c, a), Divide(d, b))
    decreases a
  {
    hide Bits8, Xor;
    if a != [] {
      var x, y := a[0] as word, b[0] as word;
      FirstXor(a, b);
      XorSwap(c, d, x, y);
      Bits8Xor(Xor(c, x), Xor(d, y));
      DivideXor(Bits8(Xor(c, x)), Bits8(Xor(d, y)), a[1..], b[1..]);
    }
  }

  lemma FirstXor(a: seq<byte>, b: seq<byte>)
    requires |a| == |b| > 0
    ensures var r := XorBytes(a, b);
            r[0] as word == Xor(a[0] as word, b[0] as word) && r[1..] == XorBytes(a[1..], b[1..])
  {
    hide Xor, Xor8;
    XorWiden(a[0], b[0]);
  }

  lemma FlipXor(a: word, b: word)
    ensures Flip(Xor(a, b)) == Xor(Flip(a), b)
  {
  }

  lemma FlipBoth(a: word, b: word)
    ensures Xor(Flip(a), Flip(b)) == Xor(a, b)
  {
  }

  // The checksum is affine.
  lemma Affine(init: word, a: seq<byte>, b: seq<byte>, c: seq<byte>)
    requires |a| == |b| == |c|
    ensures Crc(init, XorBytes(XorBytes(a, b), c)) == Xor(Xor(Crc(init, a), Crc(init, b)), Crc(init, c))
  {
    hide Xor, Divide, Flip, XorBytes;
    var s := Flip(init);
    DivideXor(s, s, a, b);
    DivideXor(Xor(s, s), s, XorBytes(a, b), c);
    XorSelf(s);
    var x, y, z := Divide(s, a), Divide(s, b), Divide(s, c);
    FlipBoth(x, y);
    XorComm(Xor(x, y), z);
    FlipXor(z, Xor(x, y));
    XorComm(Flip(z), Xor(x, y));
  }

  // ---------------------------------------------------------------------------
  // Detection
  // ---------------------------------------------------------------------------

  lemma BitInjective(c: word, d: word)
    ensures Bit(c) == Bit(d) ==> c == d
  {
  }

  // The division steps one by one.
  function Steps(c: word, n: nat): word
    decreases n
  {
    if n == 0 then c else Steps(Bit(c), n - 1)
  }

  lemma {:induction false} StepsInjective(c: word, d: word, n: nat)
    requires Steps(c, n) == Steps(d, n)
    ensures c == d
    decreases n
  {
    hide Bit;
    if n > 0 {
      StepsInjective(Bit(c), Bit(d), n - 1);
      BitInjective(c, d);
    }
  }

  lemma EightSteps(c: word)
    ensures Steps(c, 8) == Bits8(c)
  {
    hide Bit;
    var c2, c4, c6 := Bits2(c), Bits4(c), Bits2(Bits4(c));
    assert Steps(c, 8) == Steps(c2, 6);
    assert Steps(c2, 6) == Steps(c4, 4);
    assert Steps(c4, 4) == Steps(c6, 2);
    assert Steps(c6, 2) == Bits2(c6);
  }

  lemma Bits8Injective(c: word, d: word)
    ensures Bits8(c) == Bits8(d) ==> c == d
  {
    hide Bits8;
    EightSteps(c);
    EightSteps(d);
    if Bits8(c) == Bits8(d) {
      StepsInjective(c, d, 8);
    }
  }

  lemma XorInjective(c: word, d: word, m: word)
    ensures Xor(c, m) == Xor(d, m) ==> c == d
  {
  }

  // A difference in the register never goes away.
  lemma {:induction false} DivideInjective(c: word, d: word, s: seq<byte>)
    ensures Divide(c, s) == Divide(d, s) ==> c == d
    decreases s
  {
    hide Bits8, Xor;
    if s != [] {
      DivideInjective(Next(c, s[0]), Next(d, s[0]), s[1..]);
      Bits8Injective(Xor(c, s[0] as word), Xor(d, s[0] as word));
      XorInjective(c, d, s[0] as word);
    }
  }

  // ---------------------------------------------------------------------------
  // Bit by bit
  // ---------------------------------------------------------------------------

  // A bit is fed at the low end of the register.
  function Digit(b: bool): word { if b then 1 else 0 }

  function Up(w: word): word { w << 1 }

  function FeedBits(c: word, bits: seq<bool>): word
    decreases bits
  {
    if bits == [] then c else FeedBits(Bit(Xor(c, Digit(bits[0]))), bits[1..])
  }

  // Bits as a word, the first one lowest.
  function Pack(bits: seq<bool>): word {
    if bits == [] then 0 else Xor(Digit(bits[0]), Up(Pack(bits[1..])))
  }

  // The n lowest bits of a word.
  function Mask(n: nat): word {
    if n == 0 then 0 else Widen(Mask(n - 1))
  }

  function Widen(m: word): word { Up(m) | 1 }

  predicate Within(w: word, m: word) { w | m == m }

  lemma WithinWiden(w: word, m: word, b: bool)
    requires Within(w, m)
    ensures Within(Xor(Digit(b), Up(w)), Widen(m)) && Within(Widen(w), Widen(m))
  {
  }

  lemma WithinOrder(a: word, b: word, c: word)
    ensures Within(a, b) && Within(b, c) ==> Within(a, c)
    ensures Within(a, 0x7FFFFFFF) ==> a <= 0x7FFFFFFF
    ensures Within(0, a) && Within(a, a)
  {
  }

  lemma {:induction false} PackFits(bits: seq<bool>)
    ensures Within(Pack(bits), Mask(|bits|))
  {
    hide Within, Xor, Digit, Widen, Up;
    if bits == [] {
      WithinOrder(0, 0, 0);
    } else {
      PackFits(bits[1..]);
      WithinWiden(Pack(bits[1..]), Mask(|bits| - 1), bits[0]);
    }
  }

  lemma {:induction false} MasksGrow(n: nat)
    ensures Within(Mask(n), Mask(n + 1))
  {
    hide Within, Widen;
    if n == 0 {
      WithinOrder(Mask(1), 0, 0);
    } else {
      MasksGrow(n - 1);
      WithinWiden(Mask(n - 1), Mask(n), false);
    }
  }

  lemma {:induction false} MaskWithin(n: nat)
    requires n <= 31
    ensures Within(Mask(n), 0x7FFFFFFF)
    decreases 31 - n
  {
    hide Within, Widen;
    if n == 31 {
      FullMask();
      WithinOrder(0x7FFFFFFF, 0, 0);
    } else {
      MaskWithin(n + 1);
      MasksGrow(n);
      WithinOrder(Mask(n), Mask(n + 1), 0x7FFFFFFF);
    }
  }

  lemma FullMask()
    ensures Mask(31) == 0x7FFFFFFF
  {
    assert Mask(3) == 7;
    FourMore(3, 7, 0x7F);
    FourMore(7, 0x7F, 0x7FF);
    FourMore(11, 0x7FF, 0x7FFF);
    FourMore(15, 0x7FFF, 0x7FFFF);
    FourMore(19, 0x7FFFF, 0x7FFFFF);
    FourMore(23, 0x7FFFFF, 0x7FFFFFF);
    FourMore(27, 0x7FFFFFF, 0x7FFFFFFF);
  }

  lemma FourMore(n: nat, m: word, m': word)
    requires Mask(n) == m && Widen(Widen(Widen(Widen(m)))) == m'
    ensures Mask(n + 4) == m'
  {
    hide Widen;
    assert Mask(n + 2) == Widen(Widen(m));
  }

  // Feeding what lies above the lowest bit can wait for the next step.
  lemma UpWaits(c: word, w: word)
    requires w <= 0x7FFFFFFF
    ensures Bit(Xor(c, Up(w))) == Xor(Bit(c), w)
  {
    hide Xor;
    BitXor(c, Up(w));
    UpDown(w);
  }

  lemma UpDown(w: word)
    requires w <= 0x7FFFFFFF
    ensures Bit(Up(w)) == w
  {
  }

  // Up to 32 bits are fed as one word.
  lemma {:induction false} FeedWord(c: word, bits: seq<bool>)
    requires |bits| <= 32
    ensures FeedBits(c, bits) == Steps(Xor(c, Pack(bits)), |bits|)
    decreases bits
  {
    hide Bit, Xor, Digit, Up, Mask, Within;
    if bits == [] {
      XorZero(c);
    } else {
      var w, rest, low := Pack(bits[1..]), bits[1..], Digit(bits[0]);
      PackFits(rest);
      MaskWithin(|rest|);
      WithinOrder(w, Mask(|rest|), 0x7FFFFFFF);
      XorAssoc(c, low, Up(w));
      UpWaits(Xor(c, low), w);
      FeedWord(Bit(Xor(c, low)), rest);
    }
  }

  lemma XorZero(c: word)
    ensures Xor(c, 0) == c
  {
  }

  lemma {:induction false} PackInjective(x: seq<bool>, y: seq<bool>)
    requires |x| == |y| <= 32 && Pack(x) == Pack(y)
    ensures x == y
  {
    hide Xor, Digit, Up, Mask, Within;
    if x != [] {
      var v, w := Pack(x[1..]), Pack(y[1..]);
      PackFits(x[1..]);
      PackFits(y[1..]);
      MaskWithin(|x| - 1);
      WithinOrder(v, Mask(|x| - 1), 0x7FFFFFFF);
      WithinOrder(w, Mask(|x| - 1), 0x7FFFFFFF);
      LowAndUp(x[0], y[0], v, w);
      PackInjective(x[1..], y[1..]);
      assert x == [x[0]] + x[1..] && y == [y[0]] + y[1..];
    }
  }

  lemma LowAndUp(a: bool, b: bool, v: word, w: word)
    requires v <= 0x7FFFFFFF && w <= 0x7FFFFFFF && Xor(Digit(a), Up(v)) == Xor(Digit(b), Up(w))
    ensures a == b && v == w
  {
    hide Xor, Up;
    Unpack(a, v);
    Unpack(b, w);
  }

  lemma Unpack(a: bool, v: word)
    requires v <= 0x7FFFFFFF
    ensures Xor(Digit(a), Up(v)) & 1 == Digit(a) && Xor(Digit(a), Up(v)) >> 1 == v
  {
  }

  // The bits of a byte in the order the division takes them, and those of a string.
  function ByteBits(b: byte): (r: seq<bool>)
    ensures |r| == 8
  {
    [b & 1 != 0, b & 2 != 0, b & 4 != 0, b & 8 != 0, b & 0x10 != 0, b & 0x20 != 0, b & 0x40 != 0, b & 0x80 != 0]
  }

  function BitsOf(s: seq<byte>): (r: seq<bool>)
    ensures |r| == 8 * |s|
  {
    if s == [] then [] else ByteBits(s[0]) + BitsOf(s[1..])
  }

  // The checksum of a string is its division bit by bit.
  lemma {:induction false} DivideBits(c: word, s: seq<byte>)
    ensures Divide(c, s) == FeedBits(c, BitsOf(s))
    decreases s
  {
    hide Next, Bit, ByteBits;
    if s != [] {
      NextBits(c, s[0]);
      FeedConcat(c, ByteBits(s[0]), BitsOf(s[1..]));
      DivideBits(Next(c, s[0]), s[1..]);
    }
  }

  lemma NextBits(c: word, b: byte)
    ensures Next(c, b) == FeedBits(c, ByteBits(b))
  {
    hide Bits8, Xor, Pack, FeedBits, ByteBits;
    PackByte(b);
    FeedWord(c, ByteBits(b));
    EightSteps(Xor(c, b as word));
  }

  lemma PackByte(b: byte)
    ensures Pack(ByteBits(b)) == b as word
  {
    hide Xor, Digit, Up, Pack, ByteBits;
    PackEight(ByteBits(b));
    Packed(b);
  }

  // The word of eight bits.
  function Eight(s: seq<bool>): word
    requires |s| == 8
  {
    Xor(Digit(s[0]), Up(Xor(Digit(s[1]), Up(Xor(Digit(s[2]), Up(Xor(Digit(s[3]), Up(
    Xor(Digit(s[4]), Up(Xor(Digit(s[5]), Up(Xor(Digit(s[6]), Up(Xor(Digit(s[7]), Up(0))))))))))))))))
  }

  lemma PackEight(s: seq<bool>)
    requires |s| == 8
    ensures Pack(s) == Eight(s)
  {
    hide Xor, Digit, Up, Pack;
    PackRest(s, 0);
    PackRest(s, 1);
    PackRest(s, 2);
    PackRest(s, 3);
    PackRest(s, 4);
    PackRest(s, 5);
    PackRest(s, 6);
    PackRest(s, 7);
    PackRest(s, 8);
    DropAll(s);
  }

  lemma PackRest(s: seq<bool>, i: nat)
    requires i <= |s|
    ensures Pack(s[i..]) == if i == |s| then 0 else Xor(Digit(s[i]), Up(Pack(s[i + 1..])))
  {
    hide Xor, Digit, Up;
    if i < |s| {
      assert s[i..][1..] == s[i + 1..];
    }
  }

  lemma Packed(b: byte)
    ensures Eight(ByteBits(b)) == b as word
  {
  }

  lemma {:induction false} FeedConcat(c: word, a: seq<bool>, b: seq<bool>)
    ensures FeedBits(c, a + b) == FeedBits(FeedBits(c, a), b)
    decreases a
  {
    hide Bit, Xor, Digit;
    if a == [] {
      NilLeft(b);
    } else {
      assert (a + b)[0] == a[0] && (a + b)[1..] == a[1..] + b;
      FeedConcat(Bit(Xor(c, Digit(a[0]))), a[1..], b);
    }
  }

  lemma {:induction false} FeedInjective(c: word, d: word, bits: seq<bool>)
    requires FeedBits(c, bits) == FeedBits(d, bits)
    ensures c == d
    decreases bits
  {
    hide Bit, Xor, Digit;
    if bits != [] {
      var v, w := Xor(c, Digit(bits[0])), Xor(d, Digit(bits[0]));
      FeedInjective(Bit(v), Bit(w), bits[1..]);
      BitInjective(v, w);
      XorInjective(c, d, Digit(bits[0]));
    }
  }

  lemma {:induction false} BitsOfInjective(x: seq<byte>, y: seq<byte>)
    requires BitsOf(x) == BitsOf(y)
    ensures x == y
  {
    hide ByteBits;
    assert |x| == |y|;
    if x != [] {
      var b, c := BitsOf(x), BitsOf(y);
      assert b[..8] == ByteBits(x[0]) && b[8..] == BitsOf(x[1..]);
      assert c[..8] == ByteBits(y[0]) && c[8..] == BitsOf(y[1..]);
      PackByte(x[0]);
      PackByte(y[0]);
      SameByte(x[0], y[0]);
      BitsOfInjective(x[1..], y[1..]);
      assert x == [x[0]] + x[1..] && y == [y[0]] + y[1..];
    }
  }

  lemma SameByte(a: byte, b: byte)
    ensures a as word == b as word ==> a == b
  {
  }

  lemma {:induction false} BitsOfConcat(a: seq<byte>, b: seq<byte>)
    ensures BitsOf(a + b) == BitsOf(a) + BitsOf(b)
  {
    hide ByteBits;
    if a == [] {
      NilLeft(b);
      NilLeft(BitsOf(b));
    } else {
      assert (a + b)[0] == a[0] && (a + b)[1..] == a[1..] + b;
      BitsOfConcat(a[1..], b);
      Assoc(ByteBits(a[0]), BitsOf(a[1..]), BitsOf(b));
    }
  }

  lemma FlipInjective(a: word, b: word)
    ensures Flip(a) == Flip(b) ==> a == b
  {
  }

  // Every change that is confined to 32 consecutive bits, wherever they start,
  // changes the checksum.
  lemma DetectsBitBursts(init: word, x: seq<byte>, y: seq<byte>, i: nat, n: nat)
    requires |x| == |y| && n <= 32 && i + n <= 8 * |x|
    requires BitsOf(x)[..i] == BitsOf(y)[..i] && BitsOf(x)[i + n..] == BitsOf(y)[i + n..]
    ensures Crc(init, x) == Crc(init, y) <==> x == y
  {
    hide Divide, Flip, FeedBits, BitsOf;
    if Crc(init, x) == Crc(init, y) {
      var c, b, d := Flip(init), BitsOf(x), BitsOf(y);
      FlipInjective(Divide(c, x), Divide(c, y));
      DivideBits(c, x);
      DivideBits(c, y);
      SameWindow(c, b, d, i, n);
      BitsOfInjective(x, y);
    }
  }

  lemma SameWindow(c: word, b: seq<bool>, d: seq<bool>, i: nat, n: nat)
    requires |b| == |d| && n <= 32 && i + n <= |b| && b[..i] == d[..i] && b[i + n..] == d[i + n..]
    requires FeedBits(c, b) == FeedBits(c, d)
    ensures b == d
  {
    hide FeedBits, Pack, Steps, Xor;
    var v, w := b[i..i + n], d[i..i + n];
    assert b == b[..i] + v + b[i + n..] && d == d[..i] + w + d[i + n..];
    FeedConcat(c, b[..i] + v, b[i + n..]);
    FeedConcat(c, d[..i] + w, d[i + n..]);
    FeedInjective(FeedBits(c, b[..i] + v), FeedBits(c, d[..i] + w), b[i + n..]);
    FeedConcat(c, b[..i], v);
    FeedConcat(c, d[..i], w);
    var e := FeedBits(c, b[..i]);
    FeedWord(e, v);
    FeedWord(e, w);
    StepsInjective(Xor(e, Pack(v)), Xor(e, Pack(w)), n);
    XorComm(e, Pack(v));
    XorComm(e, Pack(w));
    XorInjective(Pack(v), Pack(w), e);
    PackInjective(v, w);
  }

  // In particular every change that is confined to four consecutive bytes.
  lemma DetectsBursts(init: word, a: seq<byte>, x: seq<byte>, y: seq<byte>, b: seq<byte>)
    requires |x| == |y| <= 4
    ensures Crc(init, a + x + b) == Crc(init, a + y + b) <==> x == y
  {
    hide Crc, BitsOf;
    var i, n := 8 * |a|, 8 * |x|;
    BitsOfConcat(a + x, b);
    BitsOfConcat(a + y, b);
    BitsOfConcat(a, x);
    BitsOfConcat(a, y);
    var v, w := BitsOf(a + x + b), BitsOf(a + y + b);
    assert v[..i] == BitsOf(a) == w[..i] && v[i + n..] == BitsOf(b) == w[i + n..];
    DetectsBitBursts(init, a + x + b, a + y + b, i, n);
    assert x == (a + x + b)[|a|..|a| + |x|] && y == (a + y + b)[|a|..|a| + |y|];
  }

  // ---------------------------------------------------------------------------
  // Values
  // ---------------------------------------------------------------------------

  // The low byte of a word, and what lies above it.
  function Byte(w: word): byte {
    (w & 0xFF) as byte
  }

  function Down(w: word): word {
    w >> 8
  }

  lemma ByteIs(w: word)
    ensures Byte(w) as word == Low8(w)
    ensures Bits8(High24(w)) == Down(w)
  {
    Bits8Shift(High24(w));
    HighLow(w);
  }

  // What lies above the low byte can wait for the next byte.
  lemma HighWaits(c: word, w: word)
    ensures Bits8(Xor(c, w)) == Xor(Next(c, Byte(w)), Down(w))
  {
    hide Bits8, Xor, Low8, High24, Byte, Down;
    HighLow(w);
    XorComm(High24(w), Low8(w));
    XorAssoc(c, Low8(w), High24(w));
    Bits8Xor(Xor(c, Low8(w)), High24(w));
    ByteIs(w);
  }

  // Four bytes are fed like one word, the lowest first.
  lemma DivideWord(c: word, w: word)
    ensures Divide(c, [Byte(w), Byte(Down(w)), Byte(Down(Down(w))), Byte(Down(Down(Down(w))))]) ==
            Bits8(Bits8(Bits8(Bits8(Xor(c, w)))))
  {
    hide Bits8, Xor, Byte, Next, Down;
    var w1 := Down(w);
    var w2 := Down(w1);
    var w3 := Down(w2);
    var c1 := Next(c, Byte(w));
    var c2 := Next(c1, Byte(w1));
    var c3 := Next(c2, Byte(w2));
    HighWaits(c, w);
    HighWaits(c1, w1);
    HighWaits(c2, w2);
    HighWaits(c3, w3);
    NothingAbove(w);
    XorZero(Next(c3, Byte(w3)));
    DivideFour(c, Byte(w), Byte(w1), Byte(w2), Byte(w3));
  }

  lemma NothingAbove(w: word)
    ensures Down(Down(Down(Down(w)))) == 0
  {
  }

  lemma DivideFour(c: word, b0: byte, b1: byte, b2: byte, b3: byte)
    ensures Divide(c, [b0, b1, b2, b3]) == Next(Next(Next(Next(c, b0), b1), b2), b3)
  {
    hide Next, Divide;
    var s := [b0, b1, b2, b3];
    var c1 := Next(c, b0);
    var c2 := Next(c1, b1);
    var c3 := Next(c2, b2);
    DropAll(s);
    DivideRest(c, s, 0);
    DivideRest(c1, s, 1);
    DivideRest(c2, s, 2);
    DivideRest(c3, s, 3);
    DivideRest(Next(c3, b3), s, 4);
  }

  lemma FlipSelf(d: word)
    ensures Xor(d, Flip(d)) == 0xFFFFFFFF && Xor(Flip(d), d) == 0xFFFFFFFF
  {
  }

  lemma Bits8Ones()
    ensures Bits8(Bits8(Bits8(Bits8(0xFFFFFFFF)))) == 0xDEBB20E3
  {
    assert Bits8(0xFFFFFFFF) == 0x2DFD1072;
    assert Bits8(0x2DFD1072) == 0xBE26ED00;
    assert Bits8(0xBE26ED00) == 0x00BE26ED;
    assert Bits8(0x00BE26ED) == 0xDEBB20E3;
  }

  // A string with its checksum appended, the low byte first, has one and the same
  // checksum whatever the string is: a receiver need not know where the string ends.
  lemma Residue(c: word, s: seq<byte>)
    ensures var r := Crc(c, s);
            Crc(c, s + [(r & 0xFF) as byte, ((r >> 8) & 0xFF) as byte, ((r >> 16) & 0xFF) as byte,
                        ((r >> 24) & 0xFF) as byte]) == 0x2144DF1C
  {
    hide Divide, Flip, Xor, Bits8, Byte, Down;
    var d, r := Divide(Flip(c), s), Crc(c, s);
    BytesIs(r);
    DivideConcat(Flip(c), s, [Byte(r), Byte(Down(r)), Byte(Down(Down(r))), Byte(Down(Down(Down(r))))]);
    DivideWord(d, r);
    FlipSelf(d);
    Bits8Ones();
    FlipIs(0xDEBB20E3);
  }

  lemma BytesIs(r: word)
    ensures (r & 0xFF) as byte == Byte(r) && ((r >> 8) & 0xFF) as byte == Byte(Down(r))
    ensures ((r >> 16) & 0xFF) as byte == Byte(Down(Down(r))) && ((r >> 24) & 0xFF) as byte == Byte(Down(Down(Down(r))))
  {
  }

  lemma FlipIs(a: word)
    ensures Flip(a) == a ^ 0xFFFFFFFF
  {
  }

  lemma OneTwoThree()
    ensures Next(0xFFFFFFFF, 49) == 0x7C231048 && Next(0x7C231048, 50) == 0xB0ACBB32
    ensures Next(0xB0ACBB32, 51) == 0x77B79C2D
  {
  }

  lemma FourFiveSix()
    ensures Next(0x77B79C2D, 52) == 0x641C1F5C && Next(0x641C1F5C, 53) == 0x340AC5E3
    ensures Next(0x340AC5E3, 54) == 0xF68D2C9E
  {
  }

  lemma SevenEightNine()
    ensures Next(0xF68D2C9E, 55) == 0xAFFC9660 && Next(0xAFFC9660, 56) == 0x651F2550
    ensures Next(0x651F2550, 57) == 0x340BC6D9
  {
  }

  // The check value of the checksum: that of "123456789".
  lemma CheckValue()
    ensures Crc(0, [49, 50, 51, 52, 53, 54, 55, 56, 57]) == 0xCBF43926
  {
    hide Divide;
    var s: seq<byte> := [49, 50, 51, 52, 53, 54, 55, 56, 57];
    OneTwoThree();
    FourFiveSix();
    SevenEightNine();
    hide Next;
    DivideRest(0xFFFFFFFF, s, 0);
    DivideRest(0x7C231048, s, 1);
    DivideRest(0xB0ACBB32, s, 2);
    DivideRest(0x77B79C2D, s, 3);
    DivideRest(0x641C1F5C, s, 4);
    DivideRest(0x340AC5E3, s, 5);
    DivideRest(0xF68D2C9E, s, 6);
    DivideRest(0xAFFC9660, s, 7);
    DivideRest(0x651F2550, s, 8);
    DivideRest(0x340BC6D9, s, 9);
    DropAll(s);
  }

  lemma DivideRest(c: word, s: seq<byte>, i: nat)
    requires i <= |s|
    ensures Divide(c, s[i..]) == if i == |s| then c else Divide(Next(c, s[i]), s[i + 1..])
  {
    hide Next;
    if i < |s| {
      assert s[i..][1..] == s[i + 1..];
    }
  }
}
