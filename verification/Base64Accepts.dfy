// Which texts the decoder accepts, and which bytes it delivers for any text, told by
// letters and numbers.

module Base64Accepts {
  import opened Bytes
  import opened Base64
  import opened Base64Decode
  import opened Base64Letters
  import Base64Theorems

  predicate IsLetter(c: byte) {
    exists k :: 0 <= k < 64 && Is(c, k)
  }

  lemma LetterIs(c: byte)
    ensures IsLetter(c) <==> IsBase64(c)
    ensures Int(c) == 61 <==> c == PAD
    ensures IsLetter(c) ==> Int(c) != 61
  {
    hide Is, IsBase64, Sextet;
    SextetAt(c);
    forall k ensures Is(c, k) <==> IsBase64(c) && Sextet(c) as int == k {
      SextetIs(c, k);
    }
    if IsBase64(c) {
      assert Is(c, Sextet(c) as int);
    }
    PadNumber(c);
  }

  lemma PadNumber(c: byte)
    ensures Int(c) == 61 <==> c == PAD
  {
  }

  // Four letters, of which the last or the last two may be '=' instead.
  predicate Whole(q: seq<byte>) {
    && |q| == 4 && IsLetter(q[0]) && IsLetter(q[1])
    && (IsLetter(q[2]) || (Int(q[2]) == 61 && Int(q[3]) == 61))
    && (IsLetter(q[3]) || Int(q[3]) == 61)
  }

  lemma QuantumIs(q: seq<byte>)
    ensures Quantum(q) <==> Whole(q)
  {
    hide IsLetter, Int, IsBase64;
    forall i | 0 <= i < |q| ensures (IsLetter(q[i]) <==> IsBase64(q[i])) && (Int(q[i]) == 61 <==> q[i] == PAD) {
      LetterIs(q[i]);
    }
    if |q| == 4 {
      LetterIs(q[2]);
      LetterIs(q[3]);
    }
  }

  lemma FourLetters(q: seq<byte>)
    requires |q| >= 4
    ensures Letters(q) == 4 <==> IsLetter(q[0]) && IsLetter(q[1]) && IsLetter(q[2]) && IsLetter(q[3])
  {
    hide IsLetter, IsBase64;
    LetterIs(q[0]);
    LetterIs(q[1]);
    LetterIs(q[2]);
    LetterIs(q[3]);
  }

  // A letter, or one of one or two '=' at the end.
  predicate Fine(s: seq<byte>, i: nat)
    requires i < |s|
  {
    IsLetter(s[i]) || (i + 2 >= |s| && Int(s[i]) == 61 && Int(s[|s| - 1]) == 61)
  }

  lemma WholeIsFine(q: seq<byte>)
    requires |q| == 4
    ensures Whole(q) <==> forall i :: 0 <= i < 4 ==> Fine(q, i)
  {
    hide IsLetter, Int;
    if forall i :: 0 <= i < 4 ==> Fine(q, i) {
      assert Fine(q, 0) && Fine(q, 1) && Fine(q, 2) && Fine(q, 3);
    }
  }

  // Without a context exactly the texts of whole quanta are accepted whose characters
  // are letters, but for one or two '=' at the end. What the spare bits of the last
  // letter are makes no difference.
  lemma {:induction false} UnitAccepts(s: seq<byte>)
    ensures DecodeUnit(s).ok <==> |s| % 4 == 0 && forall i :: 0 <= i < |s| ==> Fine(s, i)
    decreases |s|
  {
    hide Letters, QuantumBytes, Quantum, IsLetter, Int;
    if s == [] {
    } else if |s| <= 4 {
      QuantumIs(s);
      if |s| == 4 {
        WholeIsFine(s);
      }
    } else {
      var t := s[4..];
      FourLetters(s);
      UnitAccepts(t);
      FineLater(s);
      QuantumLength(s);
    }
  }

  lemma QuantumLength(q: seq<byte>)
    ensures Quantum(q) ==> |q| == 4
  {
  }

  lemma FineLater(s: seq<byte>)
    requires |s| > 4
    ensures var t := s[4..];
            |s| % 4 == 0 ==>
              ((forall i :: 0 <= i < |s| ==> Fine(s, i)) <==>
               IsLetter(s[0]) && IsLetter(s[1]) && IsLetter(s[2]) && IsLetter(s[3])
               && forall i :: 0 <= i < |t| ==> Fine(t, i))
  {
    hide IsLetter, Int;
    var t := s[4..];
    if |s| % 4 == 0 {
      assert |s| >= 8;
      forall i | 4 <= i < |s| ensures Fine(s, i) <==> Fine(t, i - 4) {
      }
      if forall i :: 0 <= i < |s| ==> Fine(s, i) {
        assert Fine(s, 0) && Fine(s, 1) && Fine(s, 2) && Fine(s, 3);
        forall i | 0 <= i < |t| ensures Fine(t, i) {
          assert Fine(s, i + 4);
        }
      }
      if forall i :: 0 <= i < |t| ==> Fine(t, i) {
        forall i | 4 <= i < |s| ensures Fine(s, i) {
          assert Fine(t, i - 4);
        }
      }
    }
  }

  function Quad(s: seq<byte>, i: nat): seq<byte>
    requires 4 * i + 4 <= |s|
  {
    s[4 * i..4 * i + 4]
  }

  // With a context, newlines apart, every quantum may end in '='.
  lemma {:induction false} StreamAccepts(s: seq<byte>)
    ensures DecodeStream(s).ok <==> forall i :: 0 <= i < |s| / 4 ==> Whole(Quad(s, i))
    decreases |s|
  {
    hide QuantumBytes, Quantum, Whole;
    if |s| >= 4 {
      var t := s[4..];
      QuantumIs(s[..4]);
      StreamAccepts(t);
      assert Quad(s, 0) == s[..4];
      forall i | 1 <= i < |s| / 4 ensures Quad(s, i) == Quad(t, i - 1) {
      }
      if forall i :: 0 <= i < |t| / 4 ==> Whole(Quad(t, i)) {
        forall i | 1 <= i < |s| / 4 ensures Whole(Quad(s, i)) {
          assert Whole(Quad(t, i - 1));
        }
      }
      if forall i :: 0 <= i < |s| / 4 ==> Whole(Quad(s, i)) {
        assert Whole(Quad(s, 0));
        forall i | 0 <= i < |t| / 4 ensures Whole(Quad(t, i)) {
          assert Whole(Quad(s, i + 1));
        }
      }
    }
  }

  // ---------------------------------------------------------------------------
  // Which bytes come out
  // ---------------------------------------------------------------------------

  lemma LowParts(a: bv8, b: bv8, c: bv8, d: bv8)
    requires a < 64 && b < 64 && c < 64 && d < 64
    ensures Low0(a, b) >> 2 == a && Low0(a, b) & 3 == b >> 4
    ensures Low1(b, c) >> 4 == b & 15 && Low1(b, c) & 15 == c >> 2
    ensures Low2(c, d) >> 6 == c & 3 && Low2(c, d) & 0x3f == d
  {
  }

  lemma LowInt0(a: bv8, b: bv8)
    requires a < 64 && b < 64
    ensures Int(Low0(a, b)) == Int(a) * 4 + Int(b) / 16
  {
    hide Low0;
    LowParts(a, b, 0, 0);
    Quarters(Low0(a, b));
    Sixteenths(b);
  }

  lemma LowInt1(b: bv8, c: bv8)
    requires b < 64 && c < 64
    ensures Int(Low1(b, c)) == Int(b) % 16 * 16 + Int(c) / 4
  {
    hide Low1;
    LowParts(0, b, c, 0);
    Sixteenths(Low1(b, c));
    Sixteenths(b);
    Quarters(c);
  }

  lemma LowInt2(c: bv8, d: bv8)
    requires c < 64 && d < 64
    ensures Int(Low2(c, d)) == Int(c) % 4 * 64 + Int(d)
  {
    hide Low2;
    LowParts(0, 0, c, d);
    SixtyFourths(Low2(c, d));
    Quarters(c);
  }

  lemma LowInts(a: bv8, b: bv8, c: bv8, d: bv8)
    requires a < 64 && b < 64 && c < 64 && d < 64
    ensures Int(Low0(a, b)) == Int(a) * 4 + Int(b) / 16
    ensures Int(Low1(b, c)) == Int(b) % 16 * 16 + Int(c) / 4
    ensures Int(Low2(c, d)) == Int(c) % 4 * 64 + Int(d)
  {
    LowInt0(a, b);
    LowInt1(b, c);
    LowInt2(c, d);
  }

  // Four digits to the base 64 as a number, and its three digits to the base 256.
  function Joined(v: seq<nat>): nat
    requires |v| == 4
  {
    262144 * v[0] + 4096 * v[1] + 64 * v[2] + v[3]
  }

  lemma ByteDigits(a: nat, b: nat, c: nat, d: nat)
    requires a < 64 && b < 64 && c < 64 && d < 64
    ensures var n := Joined([a, b, c, d]);
            && n / 65536 % 256 == a * 4 + b / 16
            && n / 256 % 256 == b % 16 * 16 + c / 4
            && n % 256 == c % 4 * 64 + d
  {
    var n := Joined([a, b, c, d]);
    var x, y, z := a * 4 + b / 16, b % 16 * 16 + c / 4, c % 4 * 64 + d;
    Regroup(a, b / 16, b % 16, c / 4, c % 4, d);
    assert b == 16 * (b / 16) + b % 16 && c == 4 * (c / 4) + c % 4;
    Digits256(n, x, y, z);
  }

  lemma Regroup(a: nat, b1: nat, b0: nat, c1: nat, c0: nat, d: nat)
    ensures 262144 * a + 4096 * (16 * b1 + b0) + 64 * (4 * c1 + c0) + d ==
            65536 * (a * 4 + b1) + 256 * (b0 * 16 + c1) + (c0 * 64 + d)
  {
  }

  lemma Digits256(n: nat, x: nat, y: nat, z: nat)
    requires n == 65536 * x + 256 * y + z && x < 256 && y < 256 && z < 256
    ensures n / 65536 % 256 == x && n / 256 % 256 == y && n % 256 == z
  {
    assert n / 65536 == x;
    assert n / 256 == 256 * x + y;
  }

  // The first letters of `q`, as many as there are up to four, have the given numbers;
  // zeros stand for those that are missing.
  predicate Reads(q: seq<byte>, m: nat, v: seq<nat>) {
    && |v| == 4 && m <= 4 && m <= |q|
    && (forall i :: 0 <= i < m ==> Is(q[i], v[i]))
    && (forall i :: m <= i < 4 ==> v[i] == 0)
    && (m < 4 && m < |q| ==> !IsLetter(q[m]))
  }

  lemma ReadsLetters(q: seq<byte>, m: nat, v: seq<nat>)
    requires Reads(q, m, v)
    ensures Letters(q) == m
    ensures forall i :: 0 <= i < 4 ==> v[i] < 64
    ensures forall i :: 0 <= i < m ==> Sextet(q[i]) < 64 && Int(Sextet(q[i])) == v[i]
  {
    hide Is, IsLetter, IsBase64, Sextet;
    forall i | 0 <= i < m ensures IsBase64(q[i]) && Sextet(q[i]) < 64 && Int(Sextet(q[i])) == v[i] < 64 {
      SextetIs(q[i], v[i]);
      AlphabetInverse(0, q[i]);
      LessInt(Sextet(q[i]));
    }
    if m < 4 && m < |q| {
      LetterIs(q[m]);
    }
  }

  lemma LessInt(v: bv8)
    ensures v < 64 <==> Int(v) < 64
    ensures Int(0) == 0
  {
  }

  // For any text, the bytes that the letters at its head fix, up to a whole quantum.
  lemma QuantumBytesAre(q: seq<byte>, m: nat, v: seq<nat>)
    requires Reads(q, m, v)
    ensures |QuantumBytes(q)| == if m == 0 then 0 else m - 1
    ensures m > 1 ==> Int(QuantumBytes(q)[0]) == Joined(v) / 65536 % 256
    ensures m > 2 ==> Int(QuantumBytes(q)[1]) == Joined(v) / 256 % 256
    ensures m > 3 ==> Int(QuantumBytes(q)[2]) == Joined(v) % 256
  {
    hide Reads, Sextet, Low0, Low1, Low2, Joined, Int;
    ReadsSize(q, m, v);
    ReadsLetters(q, m, v);
    QuantumBytesByShifting(q);
    LessInt(0);
    if m > 1 {
      var c, d := if m > 2 then Sextet(q[2]) else 0, if m > 3 then Sextet(q[3]) else 0;
      LowInts(Sextet(q[0]), Sextet(q[1]), c, d);
      ByteDigits(v[0], v[1], v[2], v[3]);
      assert v == [v[0], v[1], v[2], v[3]];
    }
  }

  lemma ReadsSize(q: seq<byte>, m: nat, v: seq<nat>)
    requires Reads(q, m, v)
    ensures |v| == 4 && m <= 4 && m <= |q| && forall i :: m <= i < 4 ==> v[i] == 0
  {
  }

  // A bad quantum ends a stream, having delivered the bytes that its letters fix.
  lemma BadQuantum(a: seq<byte>, q: seq<byte>, b: seq<byte>)
    requires DecodeStream(a).ok && DecodeStream(a).rest == [] && |q| == 4 && !Whole(q)
    ensures DecodeStream(a + q + b) == Decoded(DecodeStream(a).bytes + QuantumBytes(q), false, [])
  {
    hide Whole, Quantum, QuantumBytes;
    QuantumIs(q);
    Assoc(a, q, b);
    Base64Theorems.StreamAppend(a, q + b);
    NilLeft(q + b);
    assert (q + b)[..4] == q;
  }

  // Without a context everything up to the last quantum must be letters. What does not
  // decode delivers the bytes of the quanta before, and those that its letters fix.
  lemma {:induction false} UnitDelivers(a: seq<byte>, q: seq<byte>)
    requires |a| % 4 == 0 && (forall i :: 0 <= i < |a| ==> IsLetter(a[i])) && q != []
    requires |q| <= 4 || !(IsLetter(q[0]) && IsLetter(q[1]) && IsLetter(q[2]) && IsLetter(q[3]))
    ensures DecodeUnit(a + q) == Decoded(DecodeUnit(a).bytes + QuantumBytes(q), Whole(q), [])
    decreases |a|
  {
    hide Letters, QuantumBytes, Quantum, IsLetter, Whole;
    if a == [] {
      NilLeft(q);
      NilLeft(QuantumBytes(q));
      QuantumIs(q);
      QuantumLength(q);
      if |q| > 4 {
        FourLetters(q);
      }
    } else {
      var s := a + q;
      assert s[..4] == a[..4] && s[4..] == a[4..] + q;
      FourLetters(s);
      UnitDelivers(a[4..], q);
      FourLetters(a);
      FirstQuantum(a);
      Assoc(QuantumBytes(a[..4]), DecodeUnit(a[4..]).bytes, QuantumBytes(q));
    }
  }

  lemma FirstQuantum(a: seq<byte>)
    requires |a| >= 4 && Letters(a) == 4
    ensures DecodeUnit(a).bytes == QuantumBytes(a[..4]) + DecodeUnit(a[4..]).bytes
  {
    hide DecodeUnit, QuantumBytes, Letters;
    UnitRound(a);
    if |a| == 4 {
      UnitRound([]);
      assert a[..4] == a && a[4..] == [];
      NilLeft(QuantumBytes(a));
    }
  }

  lemma UnitRound(s: seq<byte>)
    ensures DecodeUnit(s).bytes ==
            if s == [] then []
            else if |s| > 4 && Letters(s) == 4 then QuantumBytes(s[..4]) + DecodeUnit(s[4..]).bytes
            else QuantumBytes(s)
  {
    hide QuantumBytes, Letters, Quantum;
  }

  // ---------------------------------------------------------------------------
  // Spare bits
  // ---------------------------------------------------------------------------

  lemma SameHigh(a: bv8, b: bv8)
    ensures Int(a) / 16 == Int(b) / 16 ==> a >> 4 == b >> 4
    ensures Int(a) / 4 == Int(b) / 4 ==> a >> 2 == b >> 2
  {
    Sixteenths(a);
    Sixteenths(b);
    Quarters(a);
    Quarters(b);
    SameInt(a >> 4, b >> 4);
    SameInt(a >> 2, b >> 2);
  }

  lemma SameInt(a: bv8, b: bv8)
    ensures a as int == b as int ==> a == b
  {
  }

  // The letters agree in the bits that carry data: all but four if the last group has one
  // byte, all but two if it has two.
  predicate SameData(n: nat, v: nat, w: nat) {
    v < 64 && w < 64 && if n == 1 then v / 16 == w / 16 else v / 4 == w / 4
  }

  lemma LowIgnores(a: bv8, b: bv8, c: bv8)
    requires b >> 4 == c >> 4
    ensures Low0(a, b) == Low0(a, c)
  {
  }

  lemma LowIgnores1(a: bv8, b: bv8, c: bv8)
    requires b >> 2 == c >> 2
    ensures Low1(a, b) == Low1(a, c)
  {
  }

  lemma SpareBitsOfGroup(s: seq<byte>, c: byte, v: nat, w: nat)
    requires 1 <= |s| <= 2 && Is(EncodeGroup(s)[|s|], v) && Is(c, w) && SameData(|s|, v, w)
    ensures var q := EncodeGroup(s)[|s| := c]; Quantum(q) && QuantumBytes(q) == s
  {
    hide Is, EncodeGroup, Low0, Low1, Low2, Sextet, IsBase64, Int;
    var e, q := EncodeGroup(s), EncodeGroup(s)[|s| := c];
    Base64Theorems.QuantumRoundTrip(s);
    QuantumBytesByShifting(e);
    QuantumBytesByShifting(q);
    SextetIs(e[|s|], v);
    SextetIs(c, w);
    InInts(Sextet(e[|s|]), v);
    InInts(Sextet(c), w);
    SameHigh(Sextet(e[|s|]), Sextet(c));
    assert Letters(e) == |s| + 1 && e[3] == PAD && (|s| == 1 ==> e[2] == PAD);
    AlphabetInverse(0, PAD);
    assert Letters(q) == |s| + 1;
    if |s| == 1 {
      LowIgnores(Sextet(e[0]), Sextet(e[1]), Sextet(c));
    } else {
      LowIgnores1(Sextet(e[1]), Sextet(e[2]), Sextet(c));
    }
  }

  lemma InInts(v: bv8, k: nat)
    requires v as int == k
    ensures Int(v) == k
  {
  }

  // Where the last letter of a padded encoding stands.
  function LastLetter(x: seq<byte>): (p: nat)
    requires |x| % 3 != 0
    ensures p < |Encode(x)|
  {
    EncodeLength(x);
    |Encode(x)| - 4 + |x| % 3
  }

  // Another letter in place of the last one of an encoding, which agrees with it in the
  // bits that carry data: the text decodes to the same bytes.
  lemma {:induction false} SpareBitsIgnored(x: seq<byte>, c: byte, v: nat, w: nat)
    requires |x| % 3 != 0 && Is(Encode(x)[LastLetter(x)], v) && Is(c, w) && SameData(|x| % 3, v, w)
    ensures var t := Encode(x)[LastLetter(x) := c];
            DecodeUnit(t) == Decoded(x, true, []) == DecodeStream(t)
    decreases |x|
  {
    hide Is, EncodeGroup, SameData, DecodeUnit, DecodeStream;
    var p, e := LastLetter(x), Encode(x);
    EncodeLength(x);
    if |x| < 3 {
      LastGroup(x, c, v, w);
    } else {
      var g, more := EncodeGroup(x[..3]), Encode(x[3..]);
      EncodeLength(x[3..]);
      assert e == g + more && p == 4 + LastLetter(x[3..]);
      SpareBitsIgnored(x[3..], c, v, w);
      assert e[p := c] == g + more[p - 4 := c];
      OneMoreGroup(x[..3], more[p - 4 := c], x[3..]);
      assert x == x[..3] + x[3..];
    }
  }

  lemma LastGroup(s: seq<byte>, c: byte, v: nat, w: nat)
    requires 1 <= |s| <= 2 && Is(Encode(s)[LastLetter(s)], v) && Is(c, w) && SameData(|s|, v, w)
    ensures var t := Encode(s)[LastLetter(s) := c]; DecodeUnit(t) == Decoded(s, true, []) == DecodeStream(t)
  {
    hide Is, EncodeGroup, QuantumBytes, Quantum, Letters, SameData;
    EncodeLength(s);
    SpareBitsOfGroup(s, c, v, w);
    var t := EncodeGroup(s)[|s| := c];
    assert t[..4] == t && t[4..] == [];
    NilLeft(s);
  }

  lemma OneMoreGroup(s: seq<byte>, u: seq<byte>, y: seq<byte>)
    requires |s| == 3 && u != [] && DecodeUnit(u) == Decoded(y, true, []) == DecodeStream(u)
    ensures var t := EncodeGroup(s) + u; DecodeUnit(t) == Decoded(s + y, true, []) == DecodeStream(t)
  {
    hide EncodeGroup, QuantumBytes, Quantum, Letters;
    var t := EncodeGroup(s) + u;
    assert t[..4] == EncodeGroup(s) && t[4..] == u;
    Base64Theorems.QuantumRoundTrip(s);
    FullGroup(s, t);
  }

  lemma FullGroup(s: seq<byte>, t: seq<byte>)
    requires |s| == 3 && |t| >= 4 && t[..4] == EncodeGroup(s)
    ensures Letters(t) == 4
  {
    hide Alphabet;
    Base64Theorems.QuantumRoundTrip(s);
    LettersOfPrefix(t);
  }

  // ---------------------------------------------------------------------------
  // What is passed over
  // ---------------------------------------------------------------------------

  // clear_garbage keeps the letters and '=' and nothing else, in their order.
  lemma ClearedKeeps(a: seq<byte>, c: byte, b: seq<byte>)
    ensures Cleared(a + [c] + b) == Cleared(a) + (if IsLetter(c) || Int(c) == 61 then [c] else []) + Cleared(b)
  {
    hide IsLetter, Int, Cleared;
    ClearedConcat(a + [c], b);
    ClearedConcat(a, [c]);
    ClearedOne(c);
  }

  lemma ClearedOne(c: byte)
    ensures Cleared([c]) == if IsLetter(c) || Int(c) == 61 then [c] else []
  {
    hide IsLetter, Int, IsBase64;
    LetterIs(c);
    assert [c][1..] == [];
  }

  lemma {:induction false} ClearedConcat(a: seq<byte>, b: seq<byte>)
    ensures Cleared(a + b) == Cleared(a) + Cleared(b)
    decreases a
  {
    hide Cleared;
    ClearedStep(a);
    if a == [] {
      NilLeft(b);
      NilLeft(Cleared(b));
    } else {
      ClearedStep(a + b);
      assert (a + b)[0] == a[0] && (a + b)[1..] == a[1..] + b;
      ClearedConcat(a[1..], b);
      Assoc(Cleared([a[0]]), Cleared(a[1..]), Cleared(b));
    }
  }

  lemma ClearedStep(s: seq<byte>)
    ensures Cleared(s) == if s == [] then [] else Cleared([s[0]]) + Cleared(s[1..])
  {
    hide IsBase64;
    assert s != [] ==> [s[0]][1..] == [];
  }

  // Reading with a context passes over the bytes 10 and over nothing else.
  lemma StripKeeps(a: seq<byte>, c: byte, b: seq<byte>)
    ensures Strip(a + [c] + b) == Strip(a) + (if Int(c) == 10 then [] else [c]) + Strip(b)
  {
    hide Int, Strip;
    StripConcat(a + [c], b);
    StripConcat(a, [c]);
    StripOne(c);
  }

  lemma StripOne(c: byte)
    ensures Strip([c]) == if Int(c) == 10 then [] else [c]
  {
    hide Int;
    NewlineNumber(c);
    assert [c][1..] == [];
  }

  lemma NewlineNumber(c: byte)
    ensures Int(c) == 10 <==> c == NEWLINE
  {
  }
}
