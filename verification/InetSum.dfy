// CRC_hash, which is the Internet checksum of RFC 1071 over a little-endian string.

module InetSum {

  type octet = x: int | 0 <= x < 256

  const M := 65535

  // Two bytes as a 16-bit word of a little-endian machine.
  function Pair(lo: octet, hi: octet): (w: nat)
    ensures w <= M
  {
    (lo as int) + (hi as int) * 256
  }

  // The 16-bit words of a string, low byte first; an odd byte is a word of its own.
  function Words(s: seq<octet>): seq<nat> {
    if s == [] then []
    else if |s| == 1 then [s[0]]
    else [Pair(s[0], s[1])] + Words(s[2..])
  }

  function Total(ws: seq<nat>): nat {
    if ws == [] then 0 else ws[0] + Total(ws[1..])
  }

  function Sum(s: seq<octet>): nat {
    Total(Words(s))
  }

  // The two folds, cut to 16 bits.
  function Fold(sum: nat): (t: nat)
    ensures t < 0x1_0000
  {
    var once := sum / 0x1_0000 + sum % 0x1_0000;
    (once + once / 0x1_0000) % 0x1_0000
  }

  function Checksum(s: seq<octet>): (r: nat)
    ensures r <= M
  {
    M - Fold(Sum(s))
  }

  lemma SumStep(s: seq<octet>, i: nat)
    requires i <= |s|
    ensures Sum(s[i..]) == if i == |s| then 0 else if i + 1 == |s| then s[i] else Pair(s[i], s[i + 1]) + Sum(s[i + 2..])
  {
    var t := s[i..];
    if |t| > 1 {
      assert t[2..] == s[i + 2..];
      assert Words(t)[1..] == Words(t[2..]);
    } else if |t| == 1 {
      var ws: seq<nat> := [t[0]];
      assert Words(t) == ws && ws[1..] == [];
      assert Total(ws) == t[0];
    } else {
      assert t == [];
    }
  }

  // Every other byte, from the first on.
  function EveryOther(s: seq<octet>): nat {
    if s == [] then 0 else s[0] as int + if |s| == 1 then 0 else EveryOther(s[2..])
  }

  // The sum by place: the bytes at even places count once, those at odd places 256 times.
  lemma {:induction false} SumByPlace(s: seq<octet>)
    ensures Sum(s) == EveryOther(s) + if s == [] then 0 else 256 * EveryOther(s[1..])
    decreases |s|
  {
    if s != [] {
      SumStep(s, 0);
      assert s[0..] == s;
      if |s| > 1 {
        SumByPlace(s[2..]);
        assert s[1..][0] == s[1];
        assert |s| > 2 ==> s[1..][2..] == s[2..][1..];
      }
    }
  }

  // The example of section 3 of RFC 1071, on a little-endian machine.
  lemma Example()
    ensures Checksum([0x00, 0x01, 0xF2, 0x03, 0xF4, 0xF5, 0xF6, 0xF7]) == 0xFFFF - 0xF2DD
  {
    var s: seq<octet> := [0x00, 0x01, 0xF2, 0x03, 0xF4, 0xF5, 0xF6, 0xF7];
    SumStep(s, 0);
    SumStep(s, 2);
    SumStep(s, 4);
    SumStep(s, 6);
    SumStep(s, 8);
    assert s[0..] == s;
  }

  // CRC_hash
  method CrcHash(str: seq<octet>) returns (answer: nat)
    requires |str| < 0x1_0000_0000
    ensures answer == Checksum(str)
  {
    var nleft := |str|;
    var w := 0;
    var sum := 0;
    assert str[0..] == str;
    while nleft > 1
      invariant nleft == |str| - w >= 0 && sum >= 0
      invariant sum + Sum(str[w..]) == Sum(str)
    {
      SumStep(str, w);
      sum := sum + Pair(str[w], str[w + 1]);
      w := w + 2;
      nleft := nleft - 2;
    }
    SumStep(str, w);
    if nleft == 1 {
      sum := sum + str[w];
    }
    sum := sum / 0x1_0000 + sum % 0x1_0000;
    sum := sum + sum / 0x1_0000;
    answer := M - sum % 0x1_0000;
  }

  // ---------------------------------------------------------------------------
  // Two folds
  // ---------------------------------------------------------------------------

  // The carry that a third fold would have to add.
  function LeftOver(sum: nat): nat {
    var once := sum / 0x1_0000 + sum % 0x1_0000;
    (once / 0x1_0000 + once % 0x1_0000) / 0x1_0000
  }

  // How often 65535 goes into the sum.
  function Rounds(sum: nat): nat {
    var once := sum / 0x1_0000 + sum % 0x1_0000;
    sum / 0x1_0000 + once / 0x1_0000 + LeftOver(sum)
  }

  lemma FoldIs(sum: nat)
    ensures sum == Fold(sum) + Rounds(sum) * M + LeftOver(sum)
    ensures sum > 0 && LeftOver(sum) == 0 ==> Fold(sum) > 0
  {
    var hi, lo := sum / 0x1_0000, sum % 0x1_0000;
    var once := hi + lo;
    var h, l := once / 0x1_0000, once % 0x1_0000;
    var c, r := (h + l) / 0x1_0000, (h + l) % 0x1_0000;
    Remainder(once + h, h + c, r);
    assert sum == 0x1_0000 * hi + lo && once == 0x1_0000 * h + l && h + l == 0x1_0000 * c + r;
  }

  lemma Remainder(x: nat, q: nat, r: nat)
    requires x == 0x1_0000 * q + r && r < 0x1_0000
    ensures x % 0x1_0000 == r
  {
  }

  lemma {:induction false} SumBound(s: seq<octet>)
    ensures 2 * Sum(s) <= M * (|s| + 1)
    ensures |s| % 2 == 1 ==> 2 * Sum(s) <= M * (|s| - 1) + 510
    ensures |s| % 2 == 0 ==> 2 * Sum(s) <= M * |s|
    decreases |s|
  {
    assert s[0..] == s;
    SumStep(s, 0);
    if |s| > 1 {
      SumBound(s[2..]);
    }
  }

  const SAFE := 131076

  // Up to 131076 bytes two folds are enough.
  lemma TwoFoldsSuffice(s: seq<octet>)
    requires |s| <= SAFE
    ensures LeftOver(Sum(s)) == 0
  {
    SumBound(s);
    var sum := Sum(s);
    assert sum <= 0x1_0000_FFFE;
    var hi, lo := sum / 0x1_0000, sum % 0x1_0000;
    assert hi <= 0x1_0000;
    assert hi == 0x1_0000 ==> lo <= 0xFFFE;
  }

  // One more byte can be too many.
  lemma OneMoreFails()
    ensures var s := seq(SAFE, _ => 255 as octet) + [1]; |s| == SAFE + 1 && LeftOver(Sum(s)) == 1
  {
    var s: seq<octet> := seq(SAFE, _ => 255 as octet) + [1];
    SumOfFull(SAFE / 2);
    assert 2 * (SAFE / 2) == SAFE;
    assert Sum(s) == 0x1_0000_FFFF;
  }

  lemma {:induction false} SumOfFull(n: nat)
    ensures Sum(seq(2 * n, _ => 255 as octet) + [1]) == n * M + 1
  {
    var s: seq<octet> := seq(2 * n, _ => 255 as octet) + [1];
    assert s[0..] == s;
    SumStep(s, 0);
    if n > 0 {
      assert s[2..] == seq(2 * (n - 1), _ => 255 as octet) + [1];
      SumOfFull(n - 1);
    }
  }

  // The complement of the checksum is congruent to the sum of the words, modulo
  // 65535, exactly when no carry is left over: it is their ones' complement sum.
  lemma OnesComplement(s: seq<octet>)
    requires |s| < 0x1_0000_0000
    ensures (M - Checksum(s)) % M == Sum(s) % M <==> LeftOver(Sum(s)) == 0
    ensures LeftOver(Sum(s)) == 0 ==> (Checksum(s) == M <==> Sum(s) == 0)
  {
    var sum := Sum(s);
    FoldIs(sum);
    SumBound(s);
    LeftOverSmall(sum);
    Congruent(sum, Fold(sum), Rounds(sum), LeftOver(sum));
  }

  lemma LeftOverSmall(sum: nat)
    requires sum < 0x1_0000_0000_0000
    ensures LeftOver(sum) <= 2
  {
    var hi, lo := sum / 0x1_0000, sum % 0x1_0000;
    assert hi < 0x1_0000_0000;
    var once := hi + lo;
    assert once / 0x1_0000 <= 0x1_0000;
  }

  lemma Congruent(sum: nat, t: nat, q: nat, c: nat)
    requires sum == t + q * M + c && c <= 2 && t <= M
    ensures t % M == sum % M <==> c == 0
  {
    assert sum % M == (t + c) % M;
  }

  // ---------------------------------------------------------------------------
  // Order and verification
  // ---------------------------------------------------------------------------

  lemma {:induction false} TotalTakesOut(ws: seq<nat>, i: nat)
    requires i < |ws|
    ensures Total(ws) == ws[i] + Total(ws[..i] + ws[i + 1..])
  {
    var r := ws[..i] + ws[i + 1..];
    if i == 0 {
      assert r == ws[1..];
    } else {
      TotalTakesOut(ws[1..], i - 1);
      assert r[0] == ws[0] && r[1..] == ws[1..][..i - 1] + ws[1..][i..];
      assert ws[1..][i..] == ws[i + 1..];
    }
  }

  function TakeOut(ws: seq<nat>, i: nat): seq<nat>
    requires i < |ws|
  {
    ws[..i] + ws[i + 1..]
  }

  lemma TakeOutBag(ws: seq<nat>, i: nat)
    requires i < |ws|
    ensures multiset(ws) == multiset{ws[i]} + multiset(TakeOut(ws, i))
  {
    assert ws == ws[..i] + ([ws[i]] + ws[i + 1..]);
  }

  lemma {:induction false} TotalIgnoresOrder(v: seq<nat>, w: seq<nat>)
    requires multiset(v) == multiset(w)
    ensures Total(v) == Total(w)
    decreases v
  {
    if v == [] {
      assert |multiset(w)| == 0;
    } else {
      assert v[0] in multiset(w);
      var i :| 0 <= i < |w| && w[i] == v[0];
      TakeOutBag(v, 0);
      TakeOutBag(w, i);
      TotalTakesOut(w, i);
      assert TakeOut(v, 0) == v[1..];
      SameRest(v[0], multiset(v[1..]), multiset(TakeOut(w, i)));
      TotalIgnoresOrder(v[1..], TakeOut(w, i));
    }
  }

  lemma SameRest(x: nat, a: multiset<nat>, b: multiset<nat>)
    requires multiset{x} + a == multiset{x} + b
    ensures a == b
  {
    assert a == multiset{x} + a - multiset{x};
    assert b == multiset{x} + b - multiset{x};
  }

  // Strings with the same words in another order have the same checksum.
  lemma OrderIgnored(a: seq<octet>, b: seq<octet>)
    requires multiset(Words(a)) == multiset(Words(b))
    ensures Checksum(a) == Checksum(b)
  {
    TotalIgnoresOrder(Words(a), Words(b));
  }

  lemma {:induction false} SumConcat(a: seq<octet>, b: seq<octet>)
    requires |a| % 2 == 0
    ensures Sum(a + b) == Sum(a) + Sum(b)
    decreases |a|
  {
    hide Pair, Sum;
    if a == [] {
      assert a + b == b;
      SumStep(a, 0);
      assert a[0..] == a;
    } else {
      assert a[0..] == a && (a + b)[0..] == a + b && (a + b)[2..] == a[2..] + b;
      SumStep(a, 0);
      SumStep(a + b, 0);
      SumConcat(a[2..], b);
    }
  }

  // Whoever sums a message and its checksum gets all ones, so the complement is zero.
  lemma Verifies(s: seq<octet>)
    requires |s| % 2 == 0 && |s| + 2 <= SAFE
    ensures var c := Checksum(s); Checksum(s + [c % 256, c / 256]) == 0
  {
    var c := Checksum(s);
    var tail: seq<octet> := [c % 256, c / 256];
    SumConcat(s, tail);
    assert tail[0..] == tail && tail[2..] == [];
    SumStep(tail, 0);
    assert Sum(tail) == c;
    TwoFoldsSuffice(s);
    TwoFoldsSuffice(s + tail);
    AllOnes(Sum(s));
  }

  lemma AllOnes(sum: nat)
    requires LeftOver(sum) == 0 && LeftOver(sum + M - Fold(sum)) == 0
    ensures Fold(sum + M - Fold(sum)) == M
  {
    hide Fold, LeftOver, Rounds;
    FoldIs(sum);
    FoldIs(sum + M - Fold(sum));
  }
}
