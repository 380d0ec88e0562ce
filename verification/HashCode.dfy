// The two hash functions of the hash map.

module HashCode {
  import opened HashChains

  const WORD := 0x1_0000_0000
  const HALF := 0x8000_0000

  // The value of a `char`, which has eight bits and a sign.
  function Signed(c: char): int {
    var u := c as int % 256;
    if u < 128 then u else u - 256
  }

  // RS: the factor changes from character to character. All but the top bit is used.
  function RsFrom(key: string, hash: nat, a: nat): nat {
    if key == "" then hash % HALF
    else RsFrom(key[1..], (hash * a + Signed(key[0])) % WORD, a * 378551 % WORD)
  }

  function Rs(key: string): nat {
    RsFrom(key, 0, 63689)
  }

  // BKDR: the factor stays.
  function BkdrFrom(key: string, hash: nat): nat {
    if key == "" then hash % HALF else BkdrFrom(key[1..], (hash * 131 + Signed(key[0])) % WORD)
  }

  function Bkdr(key: string): nat {
    BkdrFrom(key, 0)
  }

  // hashcode_index
  method HashcodeIndex(key: string, size: nat) returns (b: nat)
    requires size > 0
    ensures b == Home(Rs, key, size)
  {
    hide Signed;
    var a, hash, str := 63689, 0, 0;
    assert key[0..] == key;
    while str < |key|
      invariant str <= |key| && a >= 0 && hash >= 0 && RsFrom(key[str..], hash, a) == Rs(key)
    {
      assert key[str..][1..] == key[str + 1..];
      hash := (hash * a + Signed(key[str])) % WORD;
      a := a * 378551 % WORD;
      str := str + 1;
    }
    b := hash % HALF % size;
  }

  // hashcode_create
  method HashcodeCreate(key: string) returns (code: nat)
    ensures code == Bkdr(key)
  {
    hide Signed;
    var hash, str := 0, 0;
    assert key[0..] == key;
    while str < |key|
      invariant str <= |key| && hash >= 0 && BkdrFrom(key[str..], hash) == Bkdr(key)
    {
      assert key[str..][1..] == key[str + 1..];
      hash := (hash * 131 + Signed(key[str])) % WORD;
      str := str + 1;
    }
    code := hash % HALF;
  }

  // A single ASCII character hashes to its code.
  lemma OneCharacter(c: char)
    requires c as int < 128
    ensures Rs([c]) == Bkdr([c]) == c as int
  {
    hide RsFrom, BkdrFrom;
    assert [c][1..] == "" && Signed(c) == c as int;
    RsStep([c], 0, 63689);
    RsStep("", c as int, 63689 * 378551 % WORD);
    BkdrStep([c], 0);
    BkdrStep("", c as int);
  }

  // Values of the hashes that take all factors, the wrapping, the dropped bit and the sign.
  lemma Values()
    ensures Rs("ab") == 15167409 && Rs("abc") == 822160044
    ensures Bkdr("ab") == 12805 && Bkdr("abcdef") == 314492959 && Bkdr([233 as char]) == 2147483625
  {
    hide RsFrom, BkdrFrom;
    RsValues();
    RsLonger();
    BkdrValues();
    SignedValue();
  }

  lemma RsValues()
    ensures RsFrom("ab", 0, 63689) == 15167409
  {
    hide RsFrom;
    assert "ab"[1..] == "b" && "b"[1..] == "";
    RsNext("ab", 0, 63689, 97, 2634698159);
    RsNext("b", 97, 2634698159, 2162651057, 3202212377);
    RsStep("", 2162651057, 3202212377);
  }

  lemma RsLonger()
    ensures RsFrom("abc", 0, 63689) == 822160044
  {
    hide RsFrom;
    assert "abc"[1..] == "bc" && "bc"[1..] == "c" && "c"[1..] == "";
    RsNext("abc", 0, 63689, 97, 2634698159);
    RsNext("bc", 97, 2634698159, 2162651057, 3202212377);
    RsNext("c", 2162651057, 3202212377, 2969643692, 2012804575);
    RsStep("", 2969643692, 2012804575);
  }

  lemma BkdrValues()
    ensures BkdrFrom("ab", 0) == 12805 && BkdrFrom("abcdef", 0) == 314492959
  {
    hide BkdrFrom;
    assert "ab"[1..] == "b" && "b"[1..] == "" && "abcdef"[1..] == "bcdef" && "bcdef"[1..] == "cdef";
    assert "cdef"[1..] == "def" && "def"[1..] == "ef" && "ef"[1..] == "f" && "f"[1..] == "";
    BkdrStep("ab", 0);
    BkdrStep("b", 97);
    BkdrStep("", 12805);
    BkdrStep("abcdef", 0);
    BkdrStep("bcdef", 97);
    BkdrStep("cdef", 12805);
    BkdrStep("def", 1677554);
    BkdrStep("ef", 219759674);
    BkdrStep("f", 3018713619);
    BkdrStep("", 314492959);
  }

  lemma SignedValue()
    ensures BkdrFrom([233 as char], 0) == 2147483625
  {
    hide BkdrFrom;
    var s := [233 as char];
    assert s[1..] == "" && Signed(s[0]) == -23;
    BkdrStep(s, 0);
    BkdrStep("", 4294967273);
  }

  lemma RsStep(key: string, hash: nat, a: nat)
    ensures RsFrom(key, hash, a) ==
            if key == "" then hash % HALF
            else RsFrom(key[1..], (hash * a + Signed(key[0])) % WORD, a * 378551 % WORD)
  {
  }

  // A step with its remainders given.
  lemma RsNext(key: string, hash: nat, a: nat, next: nat, factor: nat)
    requires key != "" && next < WORD && factor < WORD
    requires (hash * a + Signed(key[0]) - next) % WORD == 0 && (a * 378551 - factor) % WORD == 0
    ensures RsFrom(key, hash, a) == RsFrom(key[1..], next, factor)
  {
    hide RsFrom;
    RsStep(key, hash, a);
    Remains(hash * a + Signed(key[0]), next);
    Remains(a * 378551, factor);
  }

  lemma Remains(x: int, r: nat)
    requires r < WORD && (x - r) % WORD == 0
    ensures x % WORD == r
  {
  }

  lemma BkdrStep(key: string, hash: nat)
    ensures BkdrFrom(key, hash) ==
            if key == "" then hash % HALF else BkdrFrom(key[1..], (hash * 131 + Signed(key[0])) % WORD)
  {
  }
}
