// What the codec is for: encoding and decoding undo each other however the text
// is wrapped and cut, and how much room a decoded chunk needs.

module Base64Theorems {
  import opened Bytes
  import opened Base64
  import opened Output
  import opened Base64Decode

  // ---------------------------------------------------------------------------
  // One quantum
  // ---------------------------------------------------------------------------

  lemma QuantumRoundTrip(s: seq<byte>)
    requires 1 <= |s| <= 3
    ensures Quantum(EncodeGroup(s)) && QuantumBytes(EncodeGroup(s)) == s
  {
    var b, c := if |s| > 1 then s[1] else 0, if |s| > 2 then s[2] else 0;
    var g, q := Group(s[0], b, c), EncodeGroup(s);
    JoinCuts(s[0], b, c);
    AlphabetInverse(Cut0(g), PAD);
    AlphabetInverse(Cut1(g), PAD);
    AlphabetInverse(Cut2(g), PAD);
    AlphabetInverse(Cut3(g), PAD);
    assert Letters(q) == |s| + 1;
    assert QuantumBytes(q) == s;
  }

  // The bits of the last letter that carry no data.
  predicate SpareBitsZero(q: seq<byte>)
    requires Quantum(q)
  {
    match Letters(q)
    case 2 => Sextet(q[1]) & 0x0f == 0
    case 3 => Sextet(q[2]) & 0x03 == 0
    case _ => true
  }

  // Cutting the joined bytes again: only the sextet whose group was cut short can change.
  lemma RejoinedBits(a: bv8, b: bv8, c: bv8, d: bv8)
    requires a < 64 && b < 64 && c < 64 && d < 64
    ensures var (x, y, z) := (Low0(a, b), Low1(b, c), Low2(c, d));
            && Shift0(x) == a && Shift1(x, y) == b && Shift2(y, z) == c && Shift3(z) == d
            && (Shift2(y, 0) == c <==> c & 0x03 == 0)
            && (Shift1(x, 0) == b <==> b & 0x0f == 0)
            && Shift2(y, 0) < 64 && Shift1(x, 0) < 64
  {
    RejoinedFirst(a, b);
    RejoinedSecond(a, b, c);
    RejoinedThird(b, c, d);
  }

  lemma RejoinedFirst(a: bv8, b: bv8)
    requires a < 64 && b < 64
    ensures Shift0(Low0(a, b)) == a
    ensures (Shift1(Low0(a, b), 0) == b <==> b & 0x0f == 0) && Shift1(Low0(a, b), 0) < 64
  {
  }

  lemma RejoinedSecond(a: bv8, b: bv8, c: bv8)
    requires a < 64 && b < 64 && c < 64
    ensures Shift1(Low0(a, b), Low1(b, c)) == b
    ensures (Shift2(Low1(b, c), 0) == c <==> c & 0x03 == 0) && Shift2(Low1(b, c), 0) < 64
  {
  }

  lemma RejoinedThird(b: bv8, c: bv8, d: bv8)
    requires b < 64 && c < 64 && d < 64
    ensures Shift2(Low1(b, c), Low2(c, d)) == c && Shift3(Low2(c, d)) == d
  {
  }

  // Encoding undoes decoding exactly when the spare bits are zero, as the encoder
  // leaves them; the decoder does not insist.
  lemma QuantumCanonical(q: seq<byte>)
    requires Quantum(q)
    ensures |QuantumBytes(q)| >= 1
    ensures EncodeGroup(QuantumBytes(q)) == q <==> SpareBitsZero(q)
  {
    var k := Letters(q);
    forall j | 0 <= j < k ensures Sextet(q[j]) < 64 && Alphabet(Sextet(q[j])) == q[j] {
      AlphabetInverse(0, q[j]);
    }
    var c, d := if k > 2 then Sextet(q[2]) else 0, if k > 3 then Sextet(q[3]) else 0;
    var bytes := QuantumBytes(q);
    QuantumBytesByShifting(q);
    EncodeGroupByShifting(bytes);
    RejoinedBits(Sextet(q[0]), Sextet(q[1]), c, d);
    AlphabetInverse(Shift1(bytes[0], 0), PAD);
    AlphabetInverse(Shift2(if k > 2 then bytes[1] else 0, 0), PAD);
    var e := EncodeGroup(QuantumBytes(q));
    assert e[0] == q[0] && (k < 4 ==> e[3] == q[3]) && (k == 2 ==> e[2] == q[2]);
    assert e == q <==> e[0] == q[0] && e[1] == q[1] && e[2] == q[2] && e[3] == q[3];
  }

  // ---------------------------------------------------------------------------
  // Whole texts, in any wrapping and any cut
  // ---------------------------------------------------------------------------

  lemma {:induction false} StreamRoundTrip(x: seq<byte>)
    ensures DecodeStream(Encode(x)) == Decoded(x, true, [])
  {
    hide EncodeGroup, QuantumBytes, Quantum;
    if x != [] {
      var s := x[..Min(3, |x|)];
      var tail := if |x| > 3 then Encode(x[3..]) else [];
      assert Encode(x) == EncodeGroup(s) + tail by {
        DropAll(x);
        NilLeft(EncodeGroup(s));
      }
      QuantumRoundTrip(s);
      StreamStep(EncodeGroup(s), tail);
      if |x| > 3 {
        StreamRoundTrip(x[3..]);
        assert s + x[3..] == x;
      } else {
        NilLeft(s);
      }
    }
  }

  lemma {:induction false} EncodeIsClean(x: seq<byte>)
    ensures NEWLINE !in Encode(x)
  {
    if x != [] {
      var g := EncodeGroup(x[..Min(3, |x|)]);
      QuantumRoundTrip(x[..Min(3, |x|)]);
      DecodesClean(g);
      assert g[..4] == g;
      DropAll(x);
      if |x| > 3 {
        EncodeIsClean(x[3..]);
      }
    }
  }

  // Decoding a stream can stop anywhere and go on from the incomplete remainder.
  lemma {:induction false} StreamAppend(a: seq<byte>, b: seq<byte>)
    ensures var d := DecodeStream(a);
            DecodeStream(a + b) == if d.ok then Prepend(d.bytes, DecodeStream(d.rest + b)) else d
    decreases |a|
  {
    hide Quantum, QuantumBytes;
    if |a| < 4 {
      NilLeft(DecodeStream(a + b).bytes);
    } else {
      assert (a + b)[..4] == a[..4] && (a + b)[4..] == a[4..] + b;
      if Quantum(a[..4]) {
        StreamAppend(a[4..], b);
        var d := DecodeStream(a[4..]);
        PrependTwice(QuantumBytes(a[..4]), d.bytes, DecodeStream(d.rest + b));
      }
    }
  }

  // Successive calls with one context, stopping at the first that fails.
  function FeedAll(pending: seq<byte>, chunks: seq<seq<byte>>): Decoded
    decreases |chunks|
  {
    if chunks == [] then Decoded([], true, pending)
    else
      var d := Feed(pending, chunks[0]);
      if d.ok then Prepend(d.bytes, FeedAll(d.rest, chunks[1..])) else d
  }

  // However a text is cut into non-empty chunks, the calls together produce the
  // same bytes, the same verdict and the same remainder as the text in one piece,
  // also when the text is bad.
  lemma {:induction false} ChunkIndependence(pending: seq<byte>, chunks: seq<seq<byte>>)
    requires |pending| < 4
    requires forall i :: 0 <= i < |chunks| ==> chunks[i] != []
    ensures FeedAll(pending, chunks) == DecodeStream(pending + Strip(Flatten(chunks)))
    decreases |chunks|
  {
    if chunks == [] {
      NilLeft(pending);
    } else {
      var head, tail := Strip(chunks[0]), Strip(Flatten(chunks[1..]));
      var d := DecodeStream(pending + head);
      StripConcat(chunks[0], Flatten(chunks[1..]));
      Assoc(pending, head, tail);
      StreamAppend(pending + head, tail);
      if d.ok {
        ChunkIndependence(d.rest, chunks[1..]);
      }
    }
  }

  // The main round trip: encode, wrap with newlines anywhere, cut anywhere, decode
  // call by call, flush.
  lemma RoundTrip(x: seq<byte>, chunks: seq<seq<byte>>)
    requires forall i :: 0 <= i < |chunks| ==> chunks[i] != []
    requires Strip(Flatten(chunks)) == Encode(x)
    ensures FeedAll([], chunks) == Decoded(x, true, [])
    ensures Feed(FeedAll([], chunks).rest, []) == Decoded([], true, [])
  {
    ChunkIndependence([], chunks);
    NilLeft(Encode(x));
    StreamRoundTrip(x);
  }

  // A flush succeeds exactly when nothing is pending, that is, when the characters
  // fed so far, newlines apart, came in whole quanta.
  lemma FlushVerdict(chunks: seq<seq<byte>>)
    requires forall i :: 0 <= i < |chunks| ==> chunks[i] != []
    requires FeedAll([], chunks).ok
    ensures Feed(FeedAll([], chunks).rest, []).ok <==> |Strip(Flatten(chunks))| % 4 == 0
  {
    ChunkIndependence([], chunks);
    NilLeft(Strip(Flatten(chunks)));
  }

  // ---------------------------------------------------------------------------
  // Without a context
  // ---------------------------------------------------------------------------

  // Padding may only stand in the last quantum.
  predicate PadsLast(s: seq<byte>) {
    forall i :: 0 <= i < |s| - 4 ==> s[i] != PAD
  }

  lemma LettersWithoutPads(q: seq<byte>)
    requires |q| == 4
    ensures Quantum(q) && PAD !in q <==> Letters(q) == 4
  {
    AlphabetInverse(0, PAD);
    if Letters(q) == 4 {
      forall j | 0 <= j < 4 ensures q[j] != PAD {
        assert IsBase64(q[j]);
      }
    }
  }

  lemma PadsLastSplit(q: seq<byte>, t: seq<byte>)
    requires |q| == 4 <= |t|
    ensures PadsLast(q + t) <==> PAD !in q && PadsLast(t)
  {
    var s := q + t;
    assert forall i :: 0 <= i < 4 ==> q[i] == s[i];
    assert forall i :: 0 <= i < |t| ==> t[i] == s[i + 4];
  }

  // The unit decoder accepts exactly what the streaming decoder accepts when there
  // are no newlines, no incomplete remainder and no early padding; and then they agree.
  lemma {:induction false} UnitVersusStream(s: seq<byte>)
    ensures DecodeUnit(s).ok <==>
            DecodeStream(s).ok && DecodeStream(s).rest == [] && NEWLINE !in s && PadsLast(s)
    ensures DecodeUnit(s).ok ==> DecodeUnit(s) == DecodeStream(s)
    decreases |s|
  {
    hide Letters, QuantumBytes;
    if |s| >= 4 {
      var q, t := s[..4], s[4..];
      LettersOfPrefix(s);
      LettersWithoutPads(q);
      assert s == q + t;
      if Quantum(q) { DecodesClean(q); DropAll(q); }
      if |s| == 4 {
        assert t == [] && s == q;
        NilLeft(QuantumBytes(q));
      } else {
        UnitVersusStream(t);
        if |t| >= 4 {
          PadsLastSplit(q, t);
        }
      }
    }
  }

  // Text to bytes to text is the identity exactly on the texts whose last quantum
  // has zero spare bits.
  lemma {:induction false} UnitCanonical(s: seq<byte>)
    requires DecodeUnit(s).ok && s != []
    ensures |s| >= 4 && Quantum(s[|s| - 4..])
    ensures Encode(DecodeUnit(s).bytes) == s <==> SpareBitsZero(s[|s| - 4..])
    decreases |s|
  {
    hide Letters, QuantumBytes, EncodeGroup, SpareBitsZero;
    if |s| == 4 {
      DropAll(s);
      QuantumCanonical(s);
    } else {
      var q, t := s[..4], s[4..];
      LettersOfPrefix(s);
      UnitCanonical(t);
      QuantumCanonical(q);
      FullQuantumCanonical(q);
      var b, r := QuantumBytes(q), DecodeUnit(t).bytes;
      assert |b| == 3 && r != [] by {
        UnitProduces(t);
      }
      assert (b + r)[..3] == b && (b + r)[3..] == r;
      assert s == q + t && t[|t| - 4..] == s[|s| - 4..];
      assert Encode(b + r) == q + Encode(r);
      assert (q + Encode(r))[4..] == Encode(r) && (q + t)[4..] == t;
    }
  }

  lemma FullQuantumCanonical(q: seq<byte>)
    requires |q| == 4 && Letters(q) == 4
    ensures Quantum(q) && |QuantumBytes(q)| == 3 && SpareBitsZero(q)
  {
  }

  lemma UnitProduces(s: seq<byte>)
    requires DecodeUnit(s).ok && s != []
    ensures DecodeUnit(s).bytes != []
  {
    if |s| > 4 {
      LettersOfPrefix(s);
    }
  }

  // ---------------------------------------------------------------------------
  // How much room a chunk needs
  // ---------------------------------------------------------------------------

  function Pads(s: seq<byte>): (n: nat)
    ensures n == 0 <==> PAD !in s
  {
    if s == [] then 0 else (if s[0] == PAD then 1 else 0) + Pads(s[1..])
  }

  lemma {:induction false} PadsConcat(a: seq<byte>, b: seq<byte>)
    ensures Pads(a + b) == Pads(a) + Pads(b)
  {
    if a == [] {
      NilLeft(b);
    } else {
      PadsConcat(a[1..], b);
      assert (a + b)[1..] == a[1..] + b;
    }
  }

  lemma QuantumLength(q: seq<byte>)
    requires Quantum(q)
    ensures |QuantumBytes(q)| + Pads(q) == 3
  {
    AlphabetInverse(0, PAD);
    assert q[1..][1..] == q[2..] && q[2..][1..] == q[3..] && q[3..][1..] == [];
    assert Pads(q[2..]) == (if q[2] == PAD then 1 else 0) + Pads(q[3..]);
    assert Pads(q[1..]) == (if q[1] == PAD then 1 else 0) + Pads(q[2..]);
    assert IsBase64(q[0]) && IsBase64(q[1]);
  }

  // Three bytes a quantum, less one for every pad.
  lemma {:induction false} StreamLength(s: seq<byte>)
    requires DecodeStream(s).ok
    ensures |DecodeStream(s).bytes| + Pads(s[..|s| / 4 * 4]) == |s| / 4 * 3
    decreases |s|
  {
    hide Quantum, QuantumBytes, Pads;
    if |s| >= 4 {
      var q, t := s[..4], s[4..];
      QuantumLength(q);
      StreamLength(t);
      assert |t| / 4 == |s| / 4 - 1;
      assert s[..|s| / 4 * 4] == q + t[..|t| / 4 * 4];
      PadsConcat(q, t[..|t| / 4 * 4]);
    }
  }

  // The size base64_decode_alloc_ctx allocates.
  function NeedLen(inlen: nat): nat {
    3 * (inlen / 4) + 2
  }

  // It can be one byte short, and is so exactly when the pending characters
  // complete one quantum more than the input length accounts for and none of the
  // quanta is padded.
  lemma NeedLenVerdict(pending: seq<byte>, input: seq<byte>)
    requires |pending| < 4 && Feed(pending, input).ok
    ensures var n, s := |Feed(pending, input).bytes|, pending + Strip(input);
            var quanta := |input| / 4 + 1;
            && n <= NeedLen(|input|) + 1
            && (n <= NeedLen(|input|) <==> !(|s| >= 4 * quanta && PAD !in s[..4 * quanta]))
    ensures |pending| + |input| % 4 < 4 ==> |Feed(pending, input).bytes| <= NeedLen(|input|)
  {
    hide DecodeStream;
    var s := pending + Strip(input);
    if input != [] {
      StreamLength(s);
      var m, quanta := |s| / 4, |input| / 4 + 1;
      assert m <= quanta && (m == quanta <==> |s| >= 4 * quanta);
    }
  }

  // One pending short of a quantum, a single letter in: two bytes are allocated
  // for the three that come out.
  lemma NeedLenFallsShort()
    ensures exists pending, input :: |pending| < 4 && Feed(pending, input).ok
                                     && |Feed(pending, input).bytes| == NeedLen(|input|) + 1
  {
    var pending, input: seq<byte> := [65, 65, 65], [65];
    assert Strip(input) == [65] by { assert input[1..] == []; }
    var s := [65, 65, 65, 65];
    assert pending + Strip(input) == s && s[..4] == s;
    assert DecodeStream(s).ok;
    assert |Feed(pending, input).bytes| == 3;
  }

  // base64_decode_alloc_ctx: decode into a block sized in advance, dropped again
  // when the text is bad. A text that needs one byte more loses it.
  method DecodeAllocCtx(ctx: DecodeContext?, input: seq<byte>) returns (ok: bool, out: array?<byte>, n: nat)
    requires ctx != null ==> ctx.Valid()
    modifies ctx, if ctx == null then {} else {ctx.buf}
    ensures ctx != null ==> ctx.Valid()
    ensures var d := Call(ctx != null, old(PendingOf(ctx)), input);
            && ok == d.ok
            && (ok ==> PendingOf(ctx) == d.rest)
            && (if ok then out != null && fresh(out) && n <= out.Length && out[..n] == Clip(d.bytes, NeedLen(|input|))
                else out == null)
  {
    var needlen := NeedLen(|input|);
    out := new byte[needlen];
    ok, n := DecodeCtx(ctx, input, out, needlen);
    if !ok {
      out := null;
    }
  }
}
