// The resumable decoder: what a text decodes to, stated on whole sequences, and
// the imperative decoder with its fast path, its gathering path and its rollback.

module Base64Decode {
  import opened Bytes
  import opened Base64
  import opened Output

  // ---------------------------------------------------------------------------
  // What up to four characters decode to
  // ---------------------------------------------------------------------------

  // How many of the first four characters, from the left, are letters.
  function Letters(q: seq<byte>): (k: nat)
    ensures k <= 4 && k <= |q|
    ensures forall j :: 0 <= j < k ==> IsBase64(q[j])
    ensures k < 4 && k < |q| ==> !IsBase64(q[k])
  {
    if |q| == 0 || !IsBase64(q[0]) then 0
    else if |q| == 1 || !IsBase64(q[1]) then 1
    else if |q| == 2 || !IsBase64(q[2]) then 2
    else if |q| == 3 || !IsBase64(q[3]) then 3
    else 4
  }

  // A complete quantum: four letters, three and a pad, or two and two pads.
  predicate Quantum(q: seq<byte>) {
    |q| == 4 && match Letters(q)
                case 4 => true
                case 3 => q[3] == PAD
                case 2 => q[2] == PAD && q[3] == PAD
                case _ => false
  }

  // Four sextets as one 24-bit group, and the three bytes of a group.
  function Join(a: bv8, b: bv8, c: bv8, d: bv8): bv24 {
    (a as bv24 << 18) | (b as bv24 << 12) | (c as bv24 << 6) | d as bv24
  }

  function Byte0(g: bv24): byte { ((g >> 16) & 0xff) as bv8 }

  function Byte1(g: bv24): byte { ((g >> 8) & 0xff) as bv8 }

  function Byte2(g: bv24): byte { (g & 0xff) as bv8 }

  // The bytes fixed by the leading letters: k letters fix k - 1 bytes.
  function QuantumBytes(q: seq<byte>): (r: seq<byte>)
    ensures |r| == if Letters(q) == 0 then 0 else Letters(q) - 1
  {
    var k := Letters(q);
    if k < 2 then []
    else
      var g := Join(Sextet(q[0]), Sextet(q[1]), if k > 2 then Sextet(q[2]) else 0, if k > 3 then Sextet(q[3]) else 0);
      if k == 2 then [Byte0(g)] else if k == 3 then [Byte0(g), Byte1(g)] else [Byte0(g), Byte1(g), Byte2(g)]
  }

  // The shift expressions of decode_4.
  function Low0(a: bv8, b: bv8): byte { (a << 2) | (b >> 4) }

  function Low1(b: bv8, c: bv8): byte { ((b << 4) & 0xf0) | (c >> 2) }

  function Low2(c: bv8, d: bv8): byte { ((c << 6) & 0xc0) | d }

  lemma BytesByShifting(a: bv8, b: bv8, c: bv8, d: bv8)
    requires a < 64 && b < 64 && c < 64 && d < 64
    ensures Byte0(Join(a, b, c, d)) == Low0(a, b)
    ensures Byte1(Join(a, b, c, d)) == Low1(b, c)
    ensures Byte2(Join(a, b, c, d)) == Low2(c, d)
  {
  }

  lemma QuantumBytesByShifting(q: seq<byte>)
    ensures Letters(q) > 1 ==> QuantumBytes(q)[0] == Low0(Sextet(q[0]), Sextet(q[1]))
    ensures Letters(q) > 2 ==> QuantumBytes(q)[1] == Low1(Sextet(q[1]), Sextet(q[2]))
    ensures Letters(q) > 3 ==> QuantumBytes(q)[2] == Low2(Sextet(q[2]), Sextet(q[3]))
  {
    var k := Letters(q);
    if k > 1 {
      forall j | 0 <= j < k ensures Sextet(q[j]) < 64 {
        AlphabetInverse(0, q[j]);
      }
      BytesByShifting(Sextet(q[0]), Sextet(q[1]), if k > 2 then Sextet(q[2]) else 0, if k > 3 then Sextet(q[3]) else 0);
    }
  }

  // Joining undoes cutting.
  lemma JoinCuts(a: byte, b: byte, c: byte)
    ensures var g := Group(a, b, c); Join(Cut0(g), Cut1(g), Cut2(g), Cut3(g)) == g
    ensures var g := Group(a, b, c); Byte0(g) == a && Byte1(g) == b && Byte2(g) == c
    ensures var g := Group(a, b, c); Cut0(g) < 64 && Cut1(g) < 64 && Cut2(g) < 64 && Cut3(g) < 64
    ensures c == 0 ==> Cut3(Group(a, b, c)) == 0
    ensures b == 0 && c == 0 ==> Cut2(Group(a, b, c)) == 0
  {
  }

  // ---------------------------------------------------------------------------
  // What a text decodes to
  // ---------------------------------------------------------------------------

  // The bytes produced, whether every quantum was complete and well formed, and
  // (if so) the characters that are still waiting for the rest of their quantum.
  datatype Decoded = Decoded(bytes: seq<byte>, ok: bool, rest: seq<byte>)

  function Prepend(b: seq<byte>, d: Decoded): Decoded {
    d.(bytes := b + d.bytes)
  }

  // A newline-free stream, quantum by quantum; a bad quantum ends it, having
  // produced the bytes its letters fix.
  function DecodeStream(s: seq<byte>): (d: Decoded)
    ensures d.ok ==> |d.rest| == |s| % 4
  {
    if |s| < 4 then Decoded([], true, s)
    else if Quantum(s[..4]) then Prepend(QuantumBytes(s[..4]), DecodeStream(s[4..]))
    else Decoded(QuantumBytes(s[..4]), false, [])
  }

  function Strip(s: seq<byte>): (r: seq<byte>)
    ensures |r| <= |s|
    ensures NEWLINE !in r
  {
    if s == [] then []
    else if s[0] == NEWLINE then Strip(s[1..])
    else [s[0]] + Strip(s[1..])
  }

  // One call with a context that holds `pending`: an empty input asks to flush.
  function Feed(pending: seq<byte>, input: seq<byte>): Decoded {
    if input != [] then DecodeStream(pending + Strip(input))
    else if pending == [] then Decoded([], true, [])
    else Decoded(QuantumBytes(pending), false, [])
  }

  // One call without a context: no newlines, and padding only at the very end.
  function DecodeUnit(s: seq<byte>): Decoded {
    if s == [] then Decoded([], true, [])
    else if |s| > 4 && Letters(s) == 4 then Prepend(QuantumBytes(s[..4]), DecodeUnit(s[4..]))
    else if Quantum(s) then Decoded(QuantumBytes(s), true, [])
    else Decoded(QuantumBytes(s), false, [])
  }

  // decode_4 sees the whole remaining input; a pad ends it only when nothing follows.
  predicate Decodes(q: seq<byte>) {
    if |q| > 4 then Letters(q) == 4 else Quantum(q)
  }

  lemma {:induction false} StripConcat(a: seq<byte>, b: seq<byte>)
    ensures Strip(a + b) == Strip(a) + Strip(b)
  {
    if a == [] {
      assert a + b == b;
    } else {
      calc {
        Strip(a + b);
        { assert (a + b)[0] == a[0] && (a + b)[1..] == a[1..] + b; }
        (if a[0] == NEWLINE then [] else [a[0]]) + Strip(a[1..] + b);
        { StripConcat(a[1..], b); }
        (if a[0] == NEWLINE then [] else [a[0]]) + (Strip(a[1..]) + Strip(b));
        Strip(a) + Strip(b);
      }
    }
  }

  lemma {:induction false} StripNothing(s: seq<byte>)
    requires NEWLINE !in s
    ensures Strip(s) == s
  {
    if s != [] {
      StripNothing(s[1..]);
      assert s == [s[0]] + s[1..];
    }
  }

  // A newline-free stretch of the input goes through untouched.
  lemma StripCleanPrefix(s: seq<byte>, p: nat, n: nat)
    requires p + n <= |s| && NEWLINE !in s[p..p + n]
    ensures Strip(s[p..]) == s[p..p + n] + Strip(s[p + n..])
  {
    StripNothing(s[p..p + n]);
    StripConcat(s[p..p + n], s[p + n..]);
    assert s[p..] == s[p..p + n] + s[p + n..];
  }

  lemma LettersOfPrefix(s: seq<byte>)
    requires |s| >= 4
    ensures Letters(s[..4]) == Letters(s) && QuantumBytes(s[..4]) == QuantumBytes(s)
  {
  }

  // ---------------------------------------------------------------------------
  // The decoder
  // ---------------------------------------------------------------------------

  // struct base64_decode_context: up to four characters carried between calls.
  class DecodeContext {
    var i: nat
    const buf: array<byte>

    ghost predicate Valid()
      reads this
    {
      i <= 4 && buf.Length == 4
    }

    // The characters not yet decoded; a full buffer has been.
    ghost function Pending(): seq<byte>
      reads this, buf
      requires Valid()
    {
      if i == 4 then [] else buf[..i]
    }

    // base64_decode_ctx_init
    constructor ()
      ensures Valid() && Pending() == [] && fresh(buf)
    {
      buf := new byte[4];
      i := 0;
    }

    // get_4: the next (up to) four characters of the pending ones followed by the
    // newline-free rest of the input, straight from the input when they lie
    // there in one piece, and otherwise gathered in `buf`.
    method Get4(input: seq<byte>, pos: nat) returns (pos': nat, quad: seq<byte>)
      requires Valid() && pos <= |input|
      modifies this, buf
      ensures Valid() && pos <= pos' <= |input| && |quad| <= 4
      ensures quad + Strip(input[pos'..]) == old(Pending()) + Strip(input[pos..])
      ensures |quad| < 4 ==> pos' == |input| && Pending() == quad
      ensures |quad| == 4 ==> pos < pos' && Pending() == []
    {
      if i == 4 {
        i := 0;
      }
      if i == 0 && 4 <= |input| - pos && NEWLINE !in input[pos..pos + 4] {
        pos', quad := pos + 4, input[pos..pos + 4];
        StripCleanPrefix(input, pos, 4);
      } else {
        pos', quad := Gather(input, pos);
      }
    }

    // The copying loop of get_4.
    method Gather(input: seq<byte>, pos: nat) returns (pos': nat, quad: seq<byte>)
      requires Valid() && i < 4 && pos <= |input|
      modifies this`i, buf
      ensures Valid() && pos <= pos' <= |input| && quad == buf[..i]
      ensures buf[..i] + Strip(input[pos'..]) == old(buf[..i]) + Strip(input[pos..])
      ensures i < 4 ==> pos' == |input|
      ensures i == 4 ==> pos < pos'
    {
      ghost var all := buf[..i] + Strip(input[pos..]);
      pos' := pos;
      while pos' < |input|
        invariant pos <= pos' <= |input| && i < 4
        invariant buf[..i] + Strip(input[pos'..]) == all
      {
        var c := input[pos'];
        ghost var was, tail := buf[..i], Strip(input[pos' + 1..]);
        assert Strip(input[pos'..]) == (if c == NEWLINE then [] else [c]) + tail by {
          assert input[pos'..][1..] == input[pos' + 1..];
        }
        pos' := pos' + 1;
        if c != NEWLINE {
          buf[i] := c;
          i := i + 1;
          assert buf[..i] == was + [c];
          if i == 4 { break; }
        }
      }
      quad := buf[..i];
    }
  }

  // decode_4: append the bytes of the quantum at the head of `q`, as far as the
  // room reaches.
  method Decode4(q: seq<byte>, cur: Cursor) returns (ok: bool)
    requires cur.Valid()
    modifies cur, cur.buf
    ensures cur.Valid() && ok == Decodes(q)
    ensures cur.done == old(cur.done) + Clip(QuantumBytes(q), old(cur.left))
  {
    QuantumBytesByShifting(q);
    if |q| < 2 || !IsBase64(q[0]) || !IsBase64(q[1]) {
      return false;
    }
    if cur.left != 0 {
      cur.Put(Low0(Sextet(q[0]), Sextet(q[1])));
    }
    if |q| == 2 {
      return false;
    }
    if q[2] == PAD {
      if |q| != 4 || q[3] != PAD {
        return false;
      }
    } else {
      if !IsBase64(q[2]) {
        return false;
      }
      if cur.left != 0 {
        cur.Put(Low1(Sextet(q[1]), Sextet(q[2])));
      }
      if |q| == 3 {
        return false;
      }
      if q[3] == PAD {
        if |q| != 4 {
          return false;
        }
      } else {
        if !IsBase64(q[3]) {
          return false;
        }
        if cur.left != 0 {
          cur.Put(Low2(Sextet(q[2]), Sextet(q[3])));
        }
      }
    }
    return true;
  }

  // decode_4 again, seen from a buffer that holds `b`.
  method TryQuad(q: seq<byte>, cur: Cursor, ghost b: seq<byte>) returns (ok: bool)
    requires cur.Holds(b)
    modifies cur, cur.buf
    ensures ok == Decodes(q) && cur.Holds(b + QuantumBytes(q)) && cur.HeldAt(old(cur.left), b)
    ensures Letters(q) == 0 ==> cur.left == old(cur.left)
  {
    ok := Decode4(q, cur);
    TakeMore(old(cur.done), b, cur.limit, QuantumBytes(q), cur.done);
  }

  lemma PrependTwice(a: seq<byte>, b: seq<byte>, d: Decoded)
    ensures Prepend(a, Prepend(b, d)) == Prepend(a + b, d)
  {
    Assoc(a, b, d.bytes);
  }

  lemma DecodesClean(s: seq<byte>)
    requires Decodes(s)
    ensures |s| >= 4 && NEWLINE !in s[..4] && Quantum(s[..4])
    ensures QuantumBytes(s[..4]) == QuantumBytes(s)
  {
    LettersOfPrefix(s);
    forall j | 0 <= j < 4 ensures s[j] != NEWLINE {
      AlphabetInverse(0, s[j]);
    }
  }

  lemma StreamStep(q: seq<byte>, s: seq<byte>)
    requires Quantum(q)
    ensures DecodeStream(q + s) == Prepend(QuantumBytes(q), DecodeStream(s))
  {
    assert (q + s)[..4] == q && (q + s)[4..] == s;
  }

  // A quantum taken by the fast path is also the next one of both readings.
  lemma FastStep(s: seq<byte>)
    requires Decodes(s)
    ensures |s| >= 4
    ensures DecodeUnit(s) == Prepend(QuantumBytes(s), DecodeUnit(s[4..]))
    ensures DecodeStream(Strip(s)) == Prepend(QuantumBytes(s), DecodeStream(Strip(s[4..])))
  {
    DecodesClean(s);
    assert s[0..] == s && s[0..0 + 4] == s[..4];
    StripCleanPrefix(s, 0, 4);
    StreamStep(s[..4], Strip(s[4..]));
  }

  // What one call of base64_decode_ctx must answer.
  function Call(withContext: bool, pending: seq<byte>, input: seq<byte>): Decoded {
    if withContext then Feed(pending, input) else DecodeUnit(input)
  }

  // What is left to answer once the call stands at `tail` with `pending` gathered.
  function Remaining(withContext: bool, flush: bool, pending: seq<byte>, tail: seq<byte>): Decoded {
    if !withContext then DecodeUnit(tail)
    else if flush then Feed(pending, [])
    else DecodeStream(pending + Strip(tail))
  }

  ghost predicate Progress(whole: Decoded, b: seq<byte>, withContext: bool, flush: bool,
                           pending: seq<byte>, tail: seq<byte>)
  {
    whole == Prepend(b, Remaining(withContext, flush, pending, tail))
  }

  lemma ProgressByFastQuad(whole: Decoded, b: seq<byte>, withContext: bool, input: seq<byte>, pos: nat)
    requires pos <= |input| && Decodes(input[pos..])
    requires Progress(whole, b, withContext, false, [], input[pos..])
    ensures pos + 4 <= |input|
    ensures Progress(whole, b + QuantumBytes(input[pos..]), withContext, false, [], input[pos + 4..])
  {
    var tail := input[pos..];
    FastStep(tail);
    NilLeft(Strip(tail));
    NilLeft(Strip(tail[4..]));
    PrependTwice(b, QuantumBytes(tail), Remaining(withContext, false, [], tail[4..]));
    Drops(input, pos, 4);
  }

  lemma ProgressByQuad(whole: Decoded, b: seq<byte>, pending: seq<byte>, tail: seq<byte>, quad: seq<byte>,
                       tail': seq<byte>)
    requires Progress(whole, b, true, false, pending, tail)
    requires quad + Strip(tail') == pending + Strip(tail) && Quantum(quad)
    ensures Progress(whole, b + QuantumBytes(quad), true, false, [], tail')
  {
    StreamStep(quad, Strip(tail'));
    NilLeft(Strip(tail'));
    PrependTwice(b, QuantumBytes(quad), Remaining(true, false, [], tail'));
  }

  // The answer is `b`, and `ok` says whether the text was good.
  ghost predicate Settled(whole: Decoded, b: seq<byte>, ok: bool, pending: seq<byte>) {
    whole.bytes == b && whole.ok == ok && (ok ==> whole.rest == pending)
  }

  // No complete quantum is left.
  lemma SettledByIncomplete(whole: Decoded, b: seq<byte>, withContext: bool, flush: bool,
                            pending: seq<byte>, tail: seq<byte>, quad: seq<byte>)
    requires Progress(whole, b, withContext, flush, pending, tail)
    requires quad == pending + Strip(tail) && |quad| < 4
    requires !withContext ==> pending == tail == []
    requires flush ==> quad == [] && tail == []
    ensures Settled(whole, b, true, quad)
  {
  }

  // The last attempt fails: what it wrote is all that remains to be answered.
  lemma SettledByFailure(whole: Decoded, b: seq<byte>, withContext: bool, flush: bool,
                         pending: seq<byte>, tail: seq<byte>, quad: seq<byte>, tail': seq<byte>)
    requires Progress(whole, b, withContext, flush, pending, tail)
    requires !Decodes(quad) && quad != []
    requires if withContext then quad + Strip(tail') == pending + Strip(tail) && |quad| <= 4 else quad == tail
    requires withContext && flush ==> tail == tail' == []
    requires withContext && !flush ==> |quad| == 4
    ensures Settled(whole, b + QuantumBytes(quad), false, [])
  {
    if withContext && !flush {
      var s := quad + Strip(tail');
      assert s[..4] == quad;
    } else if withContext {
      assert quad + Strip([]) == quad && pending + Strip([]) == pending;
    }
  }

  ghost function PendingOf(ctx: DecodeContext?): seq<byte>
    requires ctx != null ==> ctx.Valid()
    reads ctx, if ctx == null then {} else {ctx.buf}
  {
    if ctx == null then [] else ctx.Pending()
  }

  // The part of a round that the fast path could not do: gather a quantum, which
  // may straddle newlines or calls, and decode it.
  method SlowPath(ctx: DecodeContext?, input: seq<byte>, pos: nat, flush: bool, cur: Cursor,
                  ghost d: Decoded, ghost b: seq<byte>)
    returns (pos': nat, inlen: nat, stop: bool, ghost b': seq<byte>)
    requires ctx != null ==> ctx.Valid() && ctx.buf != cur.buf
    requires cur.Holds(b)
    requires pos <= |input| && (if flush then ctx != null && input == [] else pos < |input|)
    requires ctx == null ==> !Decodes(input[pos..])
    requires Progress(d, b, ctx != null, flush, PendingOf(ctx), input[pos..])
    modifies ctx, if ctx == null then {} else {ctx.buf}, cur, cur.buf
    ensures ctx != null ==> ctx.Valid()
    ensures cur.Holds(b')
    ensures stop ==> Settled(d, b', inlen == 0, PendingOf(ctx))
    ensures !stop ==> pos < pos' <= |input| && inlen == |input| - pos' && PendingOf(ctx) == []
    ensures !stop ==> Progress(d, b', ctx != null, flush, [], input[pos'..])
  {
    ghost var pending, tail := PendingOf(ctx), input[pos..];
    pos', stop, b' := pos, true, b;
    var quad;
    if ctx != null {
      pos', quad := ctx.Get4(input, pos);
    } else {
      quad := input[pos..];
    }
    inlen := |quad|;
    if inlen == 0 || (inlen < 4 && !flush && ctx != null) {
      SettledByIncomplete(d, b, ctx != null, flush, pending, tail, quad);
      inlen := 0;
      return;
    }
    var decoded := TryQuad(quad, cur, b);
    b' := b + QuantumBytes(quad);
    if !decoded {
      SettledByFailure(d, b, ctx != null, flush, pending, tail, quad, input[pos'..]);
      return;
    }
    ProgressByQuad(d, b, pending, tail, quad, input[pos'..]);
    inlen, stop := |input| - pos', false;
  }

  lemma ProgressByNewline(whole: Decoded, b: seq<byte>, pending: seq<byte>, input: seq<byte>, pos: nat)
    requires pos < |input| && input[pos] == NEWLINE
    requires Progress(whole, b, true, false, pending, input[pos..])
    ensures Progress(whole, b, true, false, pending, input[pos + 1..])
  {
    Drops(input, pos, 1);
  }

  // The bytes of `k` quanta that lie side by side in the input.
  ghost function QuantaBytes(input: seq<byte>, pos: nat, k: nat): seq<byte>
    requires pos + 4 * k <= |input|
  {
    if k == 0 then [] else QuantaBytes(input, pos, k - 1) + QuantumBytes(input[pos + 4 * (k - 1)..])
  }

  lemma {:induction false} ProgressByFastQuanta(whole: Decoded, b: seq<byte>, withContext: bool,
                                                input: seq<byte>, pos: nat, k: nat)
    requires pos + 4 * k <= |input| && forall j :: 0 <= j < k ==> Decodes(input[pos + 4 * j..])
    requires Progress(whole, b, withContext, false, [], input[pos..])
    ensures Progress(whole, b + QuantaBytes(input, pos, k), withContext, false, [], input[pos + 4 * k..])
  {
    hide Progress, Decodes, QuantumBytes;
    if k == 0 {
      NilLeft(b);
    } else {
      ProgressByFastQuanta(whole, b, withContext, input, pos, k - 1);
      var b', q := QuantaBytes(input, pos, k - 1), QuantumBytes(input[pos + 4 * (k - 1)..]);
      ProgressByFastQuad(whole, b + b', withContext, input, pos + 4 * (k - 1));
      Assoc(b, b', q);
    }
  }

  // The inner loop of base64_decode_ctx: whole quanta straight from the input,
  // until one does not decode. What that last attempt wrote is still there;
  // `leftSave` is the room there was before it.
  method FastPath(input: seq<byte>, pos: nat, cur: Cursor, ghost b: seq<byte>)
    returns (pos': nat, leftSave: nat, ghost k: nat)
    requires cur.Holds(b) && pos <= |input|
    modifies cur, cur.buf
    ensures pos' == pos + 4 * k <= |input| && !Decodes(input[pos'..])
    ensures forall j :: 0 <= j < k ==> Decodes(input[pos + 4 * j..])
    ensures cur.HeldAt(leftSave, b + QuantaBytes(input, pos, k))
    ensures Letters(input[pos'..]) == 0 ==> cur.left == leftSave
  {
    hide Decodes, QuantumBytes, Letters;
    pos', k := pos, 0;
    NilLeft(b);
    while true
      invariant pos' == pos + 4 * k <= |input|
      invariant forall j :: 0 <= j < k ==> Decodes(input[pos + 4 * j..])
      invariant cur.Holds(b + QuantaBytes(input, pos, k))
      decreases |input| - pos'
    {
      leftSave := cur.left;
      ghost var b', q := QuantaBytes(input, pos, k), QuantumBytes(input[pos'..]);
      var ok := TryQuad(input[pos'..], cur, b + b');
      if !ok { break; }
      DecodesClean(input[pos'..]);
      Assoc(b, b', q);
      assert QuantaBytes(input, pos, k + 1) == b' + q;
      pos', k := pos' + 4, k + 1;
    }
  }

  // Everything known between two rounds of the outer loop of base64_decode_ctx.
  ghost predicate Standing(ctx: DecodeContext?, flush: bool, input: seq<byte>, pos: nat, cur: Cursor,
                           d: Decoded, b: seq<byte>)
    reads ctx, if ctx == null then {} else {ctx.buf}, cur, cur.buf
  {
    && (ctx != null ==> ctx.Valid() && ctx.buf != cur.buf)
    && cur.Holds(b)
    && pos <= |input|
    && flush == (ctx != null && input == [])
    && Progress(d, b, ctx != null, flush, PendingOf(ctx), input[pos..])
  }

  // One round: the fast path if the call began on a quantum boundary, then the
  // end of the input, a newline, or a quantum by the slow path.
  method Round(ctx: DecodeContext?, fast: bool, flush: bool, input: seq<byte>, pos0: nat, cur: Cursor,
               ghost d: Decoded, ghost b0: seq<byte>)
    returns (pos: nat, stop: bool, ok: bool, ghost b: seq<byte>)
    requires Standing(ctx, flush, input, pos0, cur, d, b0)
    requires fast ==> !flush && PendingOf(ctx) == []
    requires ctx == null ==> fast
    modifies ctx, if ctx == null then {} else {ctx.buf}, cur, cur.buf
    ensures !stop ==> pos0 < pos && Standing(ctx, flush, input, pos, cur, d, b) && (fast ==> PendingOf(ctx) == [])
    ensures stop ==> (ctx != null ==> ctx.Valid()) && cur.Holds(b)
    ensures stop ==> Settled(d, b, ok, PendingOf(ctx))
  {
    hide Decodes, QuantumBytes, Progress, Settled, QuantaBytes;
    pos, b := pos0, b0;
    var leftSave, inlen := cur.left, |input| - pos;
    if fast {
      ghost var k;
      pos, leftSave, k := FastPath(input, pos, cur, b);
      inlen := |input| - pos;
      ProgressByFastQuanta(d, b, ctx != null, input, pos0, k);
      b := b + QuantaBytes(input, pos0, k);
    }
    if inlen == 0 && !flush {
      SettledByIncomplete(d, b, ctx != null, flush, PendingOf(ctx), input[pos..], PendingOf(ctx));
      cur.Unmoved(leftSave, b);
      return pos, true, true, b;
    }
    if inlen != 0 && input[pos] == NEWLINE && ctx != null {
      ProgressByNewline(d, b, PendingOf(ctx), input, pos);
      cur.Unmoved(leftSave, b);
      return pos + 1, false, false, b;
    }
    cur.Restore(leftSave, b);
    pos, inlen, stop, b := SlowPath(ctx, input, pos, flush, cur, d, b);
    ok := inlen == 0;
  }

  // The outer loop of base64_decode_ctx.
  method DecodeLoop(ctx: DecodeContext?, input: seq<byte>, cur: Cursor) returns (ok: bool, ghost b: seq<byte>)
    requires ctx != null ==> ctx.Valid() && ctx.buf != cur.buf
    requires cur.Valid() && cur.done == []
    modifies ctx, if ctx == null then {} else {ctx.buf}, cur, cur.buf
    ensures ctx != null ==> ctx.Valid()
    ensures cur.Holds(b)
    ensures Settled(Call(ctx != null, old(PendingOf(ctx)), input), b, ok, PendingOf(ctx))
  {
    var pos, flush, ctxI := 0, false, 0;
    if ctx != null {
      ctxI, flush := ctx.i, input == [];
    }
    ghost var d := Call(ctx != null, PendingOf(ctx), input);
    b := [];
    DropAll(input);
    var stop := false;
    ok := false;
    while !stop
      invariant !stop ==> Standing(ctx, flush, input, pos, cur, d, b) && (ctxI == 0 ==> PendingOf(ctx) == [])
      invariant stop ==> (ctx != null ==> ctx.Valid()) && cur.Holds(b)
      invariant stop ==> Settled(d, b, ok, PendingOf(ctx))
      decreases !stop, |input| - pos
    {
      pos, stop, ok, b := Round(ctx, ctxI == 0 && !flush, flush, input, pos, cur, d, b);
    }
  }

  // base64_decode_ctx. A null context treats newlines as garbage; otherwise an
  // empty input flushes the context.
  method DecodeCtx(ctx: DecodeContext?, input: seq<byte>, out: array<byte>, outlen: nat) returns (ok: bool, n: nat)
    requires outlen <= out.Length
    requires ctx != null ==> ctx.Valid() && ctx.buf != out
    modifies out, ctx, if ctx == null then {} else {ctx.buf}
    ensures ctx != null ==> ctx.Valid()
    ensures var d := Call(ctx != null, old(PendingOf(ctx)), input);
            && ok == d.ok
            && n <= outlen
            && out[..n] == Clip(d.bytes, outlen)
            && (ok ==> PendingOf(ctx) == d.rest)
    ensures out[outlen..] == old(out[outlen..])
  {
    var cur := new Cursor(out, outlen);
    ghost var b;
    ok, b := DecodeLoop(ctx, input, cur);
    n := outlen - cur.left;
  }
}
