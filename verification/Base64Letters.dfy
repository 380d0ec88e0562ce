// The codec against the letters of section 4 of RFC 4648 and the arithmetic of its
// 24-bit groups: what is written, what is accepted, and which bytes come out, with
// letters as text and numbers as integers.

module Base64Letters {
  import opened Bytes
  import opened Base64
  import opened Base64Decode
  import opened Base64Theorems

  const UPPER := "ABCDEFGHIJKLMNOPQRSTUVWXYZ"
  const LOWER := "abcdefghijklmnopqrstuvwxyz"
  const OTHER := "0123456789+/"
  const LETTERS := UPPER + LOWER + OTHER

  lemma UpperAt(k: nat)
    requires k < 26
    ensures UPPER[k] as int == 65 + k
  {
  }

  lemma LowerAt(k: nat)
    requires k < 26
    ensures LOWER[k] as int == 97 + k
  {
  }

  lemma OtherAt(k: nat)
    requires k < 12
    ensures OTHER[k] as int == if k < 10 then 48 + k else if k == 10 then 43 else 47
  {
  }

  // The letters as numbers.
  lemma LettersAt(k: nat)
    requires k < 64
    ensures |LETTERS| == 64
    ensures LETTERS[k] as int ==
            if k < 26 then 65 + k else if k < 52 then 71 + k else if k < 62 then k - 4 else if k == 62 then 43 else 47
  {
    assert |UPPER| == 26 && |LOWER| == 26 && |OTHER| == 12;
    if k < 26 {
      UpperAt(k);
      assert LETTERS[k] == UPPER[k];
    } else if k < 52 {
      LowerAt(k - 26);
      assert LETTERS[k] == LOWER[k - 26];
    } else {
      OtherAt(k - 52);
      assert LETTERS[k] == OTHER[k - 52];
    }
  }

  lemma AlphabetAt(v: bv8)
    requires v < 64
    ensures v as int < 64
    ensures var k := v as int;
            Alphabet(v) as int ==
            if k < 26 then 65 + k else if k < 52 then 71 + k else if k < 62 then k - 4 else if k == 62 then 43 else 47
  {
  }

  // The byte is the letter with number `k`.
  predicate Is(c: byte, k: nat) {
    k < |LETTERS| && c as int == LETTERS[k] as int
  }

  // The reverse table in numbers.
  lemma SextetAt(c: byte)
    ensures var n := c as int;
            && 0 <= n < 256
            && (IsBase64(c) <==> 65 <= n <= 90 || 97 <= n <= 122 || 48 <= n <= 57 || n == 43 || n == 47)
            && (65 <= n <= 90 ==> Sextet(c) as int == n - 65)
            && (97 <= n <= 122 ==> Sextet(c) as int == n - 71)
            && (48 <= n <= 57 ==> Sextet(c) as int == n + 4)
            && (n == 43 ==> Sextet(c) as int == 62)
            && (n == 47 ==> Sextet(c) as int == 63)
  {
  }

  // Both tables of the code are the letters in order.
  lemma SextetIs(c: byte, k: nat)
    ensures Is(c, k) <==> IsBase64(c) && Sextet(c) as int == k
  {
    hide Sextet, IsBase64, LETTERS;
    SextetAt(c);
    LettersAt(0);
    if k < 64 {
      LettersAt(k);
    }
  }

  lemma AlphabetIs(v: bv8)
    requires v < 64
    ensures Is(Alphabet(v), Int(v))
  {
    hide Alphabet, LETTERS;
    AlphabetAt(v);
    LettersAt(v as int);
  }

  // ---------------------------------------------------------------------------
  // What is written
  // ---------------------------------------------------------------------------

  lemma Shifts0(a: byte)
    ensures Shift0(a) < 64 && Shift0(a) as int == a as int / 4 && 0 <= a as int < 256
  {
  }

  lemma Quarters(v: bv8)
    ensures (v >> 2) as int == v as int / 4 && (v & 3) as int == v as int % 4
  {
  }

  lemma Sixteenths(v: bv8)
    ensures (v >> 4) as int == v as int / 16 && (v & 15) as int == v as int % 16
  {
  }

  lemma SixtyFourths(v: bv8)
    ensures (v >> 6) as int == v as int / 64 && (v & 0x3f) as int == v as int % 64
  {
  }

  lemma Parts1(a: byte, b: byte)
    ensures Shift1(a, b) < 64 && Shift1(a, b) >> 4 == a & 3 && Shift1(a, b) & 15 == b >> 4
  {
  }

  lemma Parts2(b: byte, c: byte)
    ensures Shift2(b, c) < 64 && Shift2(b, c) >> 2 == b & 15 && Shift2(b, c) & 3 == c >> 6
  {
  }

  lemma Parts3(c: byte)
    ensures Shift3(c) < 64 && Shift3(c) == c & 0x3f
  {
  }

  lemma Shifts1(a: byte, b: byte)
    ensures Shift1(a, b) as int == a as int % 4 * 16 + b as int / 16
  {
    hide Shift1;
    var v := Shift1(a, b);
    Parts1(a, b);
    Quarters(a);
    Sixteenths(b);
    Sixteenths(v);
    assert v as int == v as int / 16 * 16 + v as int % 16;
  }

  lemma Shifts2(b: byte, c: byte)
    ensures Shift2(b, c) as int == b as int % 16 * 4 + c as int / 64
  {
    hide Shift2;
    var v := Shift2(b, c);
    Parts2(b, c);
    Sixteenths(b);
    SixtyFourths(c);
    Quarters(v);
    assert v as int == v as int / 4 * 4 + v as int % 4;
  }

  // The number of three bytes, and what its four digits to the base 64 are worth.
  function Number(a: nat, b: nat, c: nat): nat {
    65536 * a + 256 * b + c
  }

  function Worth(j: nat): nat
    requires j < 4
  {
    if j == 0 then 262144 else if j == 1 then 4096 else if j == 2 then 64 else 1
  }

  // The j-th digit.
  function Digit(n: nat, j: nat): (d: nat)
    requires j < 4
    ensures d < 64
  {
    n / Worth(j) % 64
  }

  lemma Divides(n: nat, d: nat, q: nat, r: nat)
    requires d == 64 || d == 4096 || d == 262144
    requires n == q * d + r && r < d
    ensures n / d == q && n % d == r
  {
    if d == 64 {
    } else if d == 4096 {
    }
  }

  lemma Digits(a: nat, b: nat, c: nat)
    requires a < 256 && b < 256 && c < 256
    ensures var n := Number(a, b, c);
            && n / 262144 % 64 == a / 4
            && n / 4096 % 64 == a % 4 * 16 + b / 16
            && n / 64 % 64 == b % 16 * 4 + c / 64
            && n % 64 == c % 64
  {
    var n := Number(a, b, c);
    var d0, d1, d2, d3 := a / 4, a % 4 * 16 + b / 16, b % 16 * 4 + c / 64, c % 64;
    assert n == 262144 * d0 + 4096 * d1 + 64 * d2 + d3;
    assert d0 < 64 && d1 < 64 && d2 < 64 && d3 < 64;
    Divides(n, 262144, d0, 4096 * d1 + 64 * d2 + d3);
    Divides(n, 4096, 64 * d0 + d1, 64 * d2 + d3);
    Divides(n, 64, 4096 * d0 + 64 * d1 + d2, d3);
  }

  function Int(c: byte): (n: nat)
    ensures n < 256
  {
    c as int
  }

  // The byte at `i`, or zero behind the end.
  function At(x: seq<byte>, i: nat): (n: nat)
    ensures n < 256
  {
    if i < |x| then Int(x[i]) else 0
  }

  lemma ZeroInt()
    ensures Int(0) == 0 && Int(PAD) == 61
  {
  }

  // The j-th sextet of a group, by the shift expressions.
  function Shifted(j: nat, a: byte, b: byte, c: byte): bv8 {
    if j == 0 then Shift0(a) else if j == 1 then Shift1(a, b) else if j == 2 then Shift2(b, c) else Shift3(c)
  }

  lemma GroupDigit(j: nat, a: byte, b: byte, c: byte)
    requires j < 4
    ensures Shifted(j, a, b, c) < 64
    ensures Int(Shifted(j, a, b, c)) == Digit(Number(Int(a), Int(b), Int(c)), j)
  {
    hide Shift0, Shift1, Shift2, Shift3, Number;
    Digits(Int(a), Int(b), Int(c));
    if j == 0 {
      Shifts0(a);
    } else if j == 1 {
      Parts1(a, b);
      Shifts1(a, b);
    } else if j == 2 {
      Parts2(b, c);
      Shifts2(b, c);
    } else {
      Parts3(c);
      SixtyFourths(c);
    }
  }

  // One group: the letters of the digits that a byte reaches, and pads.
  lemma GroupAt(s: seq<byte>, j: nat)
    requires 1 <= |s| <= 3 && j < 4
    ensures var n := Number(At(s, 0), At(s, 1), At(s, 2));
            if j <= |s| then Is(EncodeGroup(s)[j], Digit(n, j)) else Int(EncodeGroup(s)[j]) == 61
  {
    hide Alphabet, EncodeGroup, Is, Int, Number, Digit, Shift0, Shift1, Shift2, Shift3;
    ZeroInt();
    var b, c := if |s| > 1 then s[1] else 0, if |s| > 2 then s[2] else 0;
    EncodeGroupByShifting(s);
    GroupDigit(j, s[0], b, c);
    AlphabetIs(Shifted(j, s[0], b, c));
  }

  lemma AtShort(x: seq<byte>, k: nat)
    requires k < 3
    ensures At(x[..Min(3, |x|)], k) == At(x, k)
  {
  }

  lemma AtLater(x: seq<byte>, k: nat)
    requires |x| >= 3
    ensures At(x[3..], k) == At(x, k + 3)
  {
  }

  function NumberAt(x: seq<byte>, k: nat): nat {
    Number(At(x, k), At(x, k + 1), At(x, k + 2))
  }

  lemma {:induction false} DigitAt(x: seq<byte>, i: nat, j: nat)
    requires 3 * i < |x| && j < 4
    ensures 4 * i + j < |Encode(x)|
    ensures if 3 * i + j <= |x| then Is(Encode(x)[4 * i + j], Digit(NumberAt(x, 3 * i), j))
            else Int(Encode(x)[4 * i + j]) == 61
    decreases |x|
  {
    hide EncodeGroup, Is, Int, Number, Digit, At;
    EncodeLength(x);
    if i == 0 {
      var s := x[..Min(3, |x|)];
      GroupAt(s, j);
      AtShort(x, 0);
      AtShort(x, 1);
      AtShort(x, 2);
      DropAll(x);
      assert Encode(x)[j] == EncodeGroup(s)[j];
    } else {
      var k := 3 * i - 3;
      DigitAt(x[3..], i - 1, j);
      AtLater(x, k);
      AtLater(x, k + 1);
      AtLater(x, k + 2);
      assert Encode(x)[4 * i + j] == Encode(x[3..])[4 * (i - 1) + j];
    }
  }

  // Every character of an encoding: the letter of its digit, or '='.
  lemma EncodedAt(x: seq<byte>, i: nat, j: nat)
    requires 3 * i < |x| && j < 4
    ensures |Encode(x)| == (|x| + 2) / 3 * 4 && 4 * i + j < |Encode(x)|
    ensures var n := 65536 * At(x, 3 * i) + 256 * At(x, 3 * i + 1) + At(x, 3 * i + 2);
            Encode(x)[4 * i + j] as int ==
            if 3 * i + j <= |x| then LETTERS[n / Worth(j) % 64] as int else 61
  {
    hide Encode, LETTERS, Worth, At;
    EncodeLength(x);
    LettersAt(0);
    DigitAt(x, i, j);
  }
}
