// Growable strings whose memory comes from a bump arena, or from the heap when the
// arena is used up.

module Stralloc {
  import opened Bytes

  const ALIGNMENT := 16
  const SPACE := 4096

  // What _alloc asks for: always more than n, and aligned.
  function Rounded(n: nat): (r: nat)
    ensures n < r <= n + 16 && r % 16 == 0
  {
    ALIGNMENT + n - n % ALIGNMENT
  }

  // The capacity a string grows to.
  function Grown(n: nat): (r: nat)
    ensures n < r
  {
    30 + n + n / 8
  }

  // The capacity of a string and what its regrowths have copied so far.
  datatype Room = Room(a: nat, copied: nat)

  function Ask(r: Room, n: nat): Room {
    if n <= r.a then r else Room(Grown(n), r.copied + r.a)
  }

  function AskAll(r: Room, needs: seq<nat>): Room
    decreases needs
  {
    if needs == [] then r else AskAll(Ask(r, needs[0]), needs[1..])
  }

  // Growth costs amortised constant time: whatever is asked for in whatever order,
  // all copying together stays below eight times the capacity, and the capacity
  // below nine eighths of the largest need, plus 30.
  lemma {:induction false} CopyingIsLinear(r: Room, needs: seq<nat>, most: nat)
    requires r.copied <= 8 * r.a && r.a <= Grown(most) && forall n :: n in needs ==> n <= most
    ensures var t := AskAll(r, needs);
            && t.copied <= 8 * t.a && r.a <= t.a <= 30 + most + most / 8
            && forall n :: n in needs ==> n <= t.a
    decreases needs
  {
    if needs != [] {
      assert needs[0] in needs && 9 * needs[0] <= 8 * Grown(needs[0]);
      assert forall n :: n in needs[1..] ==> n in needs;
      CopyingIsLinear(Ask(r, needs[0]), needs[1..], most);
      forall n | n in needs ensures n <= AskAll(r, needs).a {
        assert n == needs[0] || n in needs[1..];
      }
    }
  }

  // A struct stralloc. The pointer `s` is a memory block and an offset into it; the
  // ghost fields say what string it holds and how many bytes its regrowths copied.
  class Str {
    var s: array?<char>
    var off: nat
    var len: nat
    var a: nat
    ghost var text: string
    ghost var copied: nat

    constructor ()
      ensures s == null && text == "" && copied == 0
    {
      s, off, len, a, text, copied := null, 0, 0, 0, "", 0;
    }
  }

  // All strings of a program and the arena they share.
  class Pool {
    const space: array<char>
    var avail: nat
    ghost var strs: set<Str>

    // The block of a string lies in the arena above `avail`, or is a block of its own.
    ghost predicate Placed(x: Str)
      reads this`avail, x`s, x`off, x`a
    {
      && space.Length == SPACE && avail <= SPACE && avail % ALIGNMENT == 0
      && (x.s != null ==> x.off + x.a <= x.s.Length && (x.s == space ==> avail <= x.off))
    }

    static ghost predicate Apart(x: Str, y: Str)
      reads x`s, x`off, x`a, y`s, y`off, y`a
    {
      x.s != null && x.s == y.s ==> x.off + x.a <= y.off || y.off + y.a <= x.off
    }

    // Blocks do not overlap, and copying has cost at most eight times the capacity.
    ghost predicate Layout()
      reads this`avail, this`strs, strs`s, strs`off, strs`a, strs`copied
    {
      && space.Length == SPACE && avail <= SPACE && avail % ALIGNMENT == 0
      && (forall x :: x in strs ==> Placed(x))
      && (forall x, y :: x in strs && y in strs && x != y ==> Apart(x, y))
      && (forall x :: x in strs ==> x.copied <= if x.s == null then 0 else 8 * x.a)
    }

    // The string is there, with a zero behind it.
    static ghost predicate Holds(x: Str)
      reads x, x.s
    {
      if x.s == null then x.text == ""
      else
        && x.off + x.a <= x.s.Length && x.len < x.a
        && x.s[x.off..x.off + x.len] == x.text && x.s[x.off + x.len] == '\0'
    }

    ghost predicate Valid()
      reads this, strs, set x | x in strs && x.s != null :: x.s
    {
      Layout() && forall x :: x in strs ==> Holds(x)
    }

    constructor ()
      ensures Valid() && strs == {} && fresh(space) && space.Length == avail == 4096
    {
      space := new char[SPACE](_ => '\0');
      avail, strs := SPACE, {};
    }

    // A new, empty string.
    ghost method Adopt(x: Str)
      requires Valid() && x !in strs && x.s == null && x.text == "" && x.copied == 0
      modifies `strs
      ensures Valid() && strs == old(strs) + {x}
    {
      strs := strs + {x};
    }

    // _alloc
    method Alloc(n: nat) returns (s: array<char>, off: nat)
      requires space.Length == SPACE && avail <= SPACE && avail % ALIGNMENT == 0
      modifies `avail
      ensures avail <= SPACE && avail % ALIGNMENT == 0 && off + Rounded(n) <= s.Length
      ensures if Rounded(n) <= old(avail) then s == space && off == avail && avail + Rounded(n) == old(avail)
              else avail == old(avail) && fresh(s) && off == 0
    {
      var r := Rounded(n);
      if r <= avail {
        avail := avail - r;
        return space, avail;
      }
      s := new char[r];
      off := 0;
    }

    // _alloc_re: a bigger block with the first m bytes of the old one.
    method AllocRe(x: Str, m: nat, n: nat)
      requires space.Length == SPACE && avail <= SPACE && avail % ALIGNMENT == 0
      requires x.s != null && x.off + m <= x.s.Length && m <= n && (x.s == space ==> avail <= x.off)
      modifies `avail, x`s, x`off, space
      ensures avail <= SPACE && avail % ALIGNMENT == 0 && x.s != null && x.off + n <= x.s.Length
      ensures x.s[x.off..x.off + m] == old(x.s[x.off..x.off + m])
      ensures if Rounded(n) <= old(avail) then x.s == space && x.off == avail && avail + n < old(avail)
              else avail == old(avail) && fresh(x.s) && x.off == 0
      ensures forall k :: old(avail) <= k < SPACE ==> space[k] == old(space[k])
    {
      hide Rounded;
      ghost var kept := x.s[x.off..x.off + m];
      var y, yoff := Alloc(n);
      forall k | 0 <= k < m {
        y[yoff + k] := x.s[x.off + k];
      }
      assert forall k :: 0 <= k < m ==> y[yoff + k] == kept[k];
      x.s, x.off := y, yoff;
    }

    // All strings but `x` are intact.
    ghost predicate Others(x: Str)
      reads this, strs, set y | y in strs && y.s != null :: y.s
    {
      forall y :: y in strs && y != x ==> Holds(y)
    }

    // A string whose bytes have moved to a bigger block.
    static twostate lemma Kept(x: Str)
      requires old(Holds(x)) && old(x.s) != null && x.s != null && x.len == old(x.len) && x.text == old(x.text)
      requires old(x.a) <= x.a && x.off + x.a <= x.s.Length
      requires x.s[x.off..x.off + old(x.a)] == old(x.s[x.off..x.off + x.a])
      ensures Holds(x)
    {
      var kept := old(x.s[x.off..x.off + x.a]);
      assert x.s[x.off..x.off + x.len] == kept[..x.len] == old(x.s[x.off..x.off + x.len]);
      assert x.s[x.off + x.len] == kept[x.len];
    }

    lemma HasRoom(x: Str)
      requires Layout() && x in strs && x.s != null
      ensures space.Length == SPACE && avail <= SPACE && avail % ALIGNMENT == 0
      ensures x.off + x.a <= x.s.Length && (x.s == space ==> avail <= x.off) && x.copied <= 8 * x.a
    {
    }

    // A bigger block for a string that has memory.
    method Regrow(x: Str, n: nat)
      requires space.Length == SPACE && avail <= SPACE && avail % ALIGNMENT == 0
      requires Holds(x) && x.s != null && x.a < n && x.off + x.a <= x.s.Length && (x.s == space ==> avail <= x.off)
      modifies `avail, x`s, x`off, x`a, x`copied, space
      ensures avail <= old(avail) && avail % ALIGNMENT == 0 && x.s != null && x.off + x.a <= x.s.Length
      ensures Holds(x) && x.a == Grown(n) && x.copied == old(x.copied) + old(x.a)
      ensures if x.s == space then x.off == avail && avail + x.a <= old(avail) else fresh(x.s)
      ensures forall k :: old(avail) <= k < SPACE ==> space[k] == old(space[k])
    {
      hide Rounded, Grown, Holds;
      var i := x.a;
      x.a, x.copied := Grown(n), x.copied + i;
      AllocRe(x, i, x.a);
      Kept(x);
    }

    // The same for a string of the pool.
    method Enlarge(x: Str, n: nat)
      requires Layout() && Holds(x) && x in strs && x.s != null && x.a < n
      modifies `avail, x`s, x`off, x`a, x`copied, space
      ensures Layout() && Holds(x) && x.s != null && x.a == Grown(n)
      ensures x.s == space || fresh(x.s)
      ensures x.copied == old(x.copied) + old(x.a)
      ensures forall k :: old(avail) <= k < SPACE ==> space[k] == old(space[k])
    {
      hide Layout, Holds, Grown;
      HasRoom(x);
      Amortised(x.copied, x.a, n);
      Regrow(x, n);
      Moved(x);
    }

    // The branch that stralloc_ready and stralloc_readyplus share.
    method Grow(x: Str, n: nat)
      requires Valid() && x in strs && x.s != null && x.a < n
      modifies `avail, x`s, x`off, x`a, x`copied, space
      ensures Valid() && x.s != null && x.a == Grown(n)
      ensures x.s == space || fresh(x.s)
      ensures x.copied == old(x.copied) + old(x.a)
    {
      hide Apart;
      Enlarge(x, n);
      forall y | y in strs && y != x ensures Holds(y) {
        assert old(Holds(y)) && old(Placed(y));
      }
    }

    // A string whose block is new: below all others in the arena, or new on the heap.
    twostate lemma Moved(x: Str)
      requires old(Layout()) && x in strs && strs == old(strs)
      requires space.Length == SPACE && avail <= old(avail) && avail % ALIGNMENT == 0
      requires x.s != null && x.off + x.a <= x.s.Length
      requires if x.s == space then x.off == avail && avail + x.a <= old(avail) else fresh(x.s)
      requires x.copied <= 8 * x.a
      requires forall y :: y in strs && y != x ==>
                 y.s == old(y.s) && y.off == old(y.off) && y.a == old(y.a) && y.copied == old(y.copied)
      ensures Layout()
    {
      forall y | y in strs && y != x ensures Placed(y) && Apart(x, y) && Apart(y, x) {
        assert old(Placed(y));
      }
      forall y, z | y in strs && z in strs && y != z ensures Apart(y, z) {
        assert old(Apart(y, z));
      }
    }

    static lemma Amortised(copied: nat, a: nat, n: nat)
      requires copied <= 8 * a && a < n
      ensures copied + a <= 8 * Grown(n) && n < Grown(n)
    {
    }

    // The first block of a string: what stralloc_ready and stralloc_readyplus do
    // when there is none.
    method Begin(x: Str, n: nat)
      requires Valid() && x in strs && x.s == null
      modifies `avail, x`s, x`off, x`len, x`a
      ensures Layout() && Others(x) && x.s != null && x.a == n && x.len == 0
      ensures x.s == space || fresh(x.s)
    {
      hide Apart, Rounded;
      assert x.copied == 0;
      x.len, x.a := 0, n;
      x.s, x.off := Alloc(n);
      Moved(x);
      forall y | y in strs && y != x ensures Holds(y) {
        assert old(Holds(y));
      }
    }

    // stralloc_ready
    method Ready(x: Str, n: nat) returns (ok: bool)
      requires Valid() && x in strs
      modifies `avail, x`s, x`off, x`len, x`a, x`copied, space
      ensures ok && Layout() && Others(x) && x.s != null && (x.s == old(x.s) || x.s == space || fresh(x.s))
      ensures if old(x.s) == null then x.a == n && x.copied == old(x.copied)
              else Room(x.a, x.copied) == Ask(old(Room(x.a, x.copied)), n)
      ensures old(x.s) != null ==> x.a == if n <= old(x.a) then old(x.a) else 30 + n + n / 8
      ensures old(x.s) != null ==> Holds(x) && x.len == old(x.len)
    {
      hide Apart, Holds, Rounded;
      if x.s != null {
        if n > x.a {
          Grow(x, n);
        }
      } else {
        Begin(x, n);
      }
      ok := true;
    }

    // stralloc_readyplus
    method Readyplus(x: Str, n: nat) returns (ok: bool)
      requires Valid() && x in strs
      modifies `avail, x`s, x`off, x`len, x`a, x`copied, space
      ensures ok && Layout() && Others(x) && x.s != null && (x.s == old(x.s) || x.s == space || fresh(x.s))
      ensures if old(x.s) == null then x.a == n && x.copied == old(x.copied)
              else Room(x.a, x.copied) == Ask(old(Room(x.a, x.copied)), n + old(x.len))
      ensures old(x.s) != null ==>
                var need := n + old(x.len); x.a == if need <= old(x.a) then old(x.a) else 30 + need + need / 8
      ensures old(x.s) != null ==> Holds(x) && x.len == old(x.len)
    {
      hide Apart, Holds, Rounded;
      if x.s != null {
        if n + x.len > x.a {
          Grow(x, n + x.len);
        }
      } else {
        Begin(x, n);
      }
      ok := true;
    }

    // memcpy behind the first `at` bytes, then the new length and the zero.
    method Store(x: Str, at: nat, data: string)
      requires x.s != null && x.off + x.a <= x.s.Length && at + |data| < x.a
      modifies x`len, x.s
      ensures x.len == at + |data| && x.s[x.off + x.len] == '\0'
      ensures x.s[x.off..x.off + at] == old(x.s[x.off..x.off + at]) && x.s[x.off + at..x.off + x.len] == data
      ensures forall k :: 0 <= k < x.s.Length && !(x.off <= k < x.off + x.a) ==> x.s[k] == old(x.s[k])
    {
      forall k | 0 <= k < |data| {
        x.s[x.off + at + k] := data[k];
      }
      x.len := at + |data|;
      x.s[x.off + x.len] := '\0';
    }

    // The same, with the string that this makes of the first `at` bytes.
    method StoreText(x: Str, at: nat, data: string)
      requires x.s != null && x.off + x.a <= x.s.Length && at + |data| < x.a && at <= |x.text|
      requires at > 0 ==> Holds(x)
      modifies x`len, x`text, x.s
      ensures Holds(x) && x.text == old(x.text)[..at] + data && x.len == |x.text|
      ensures forall k :: 0 <= k < x.s.Length && !(x.off <= k < x.off + x.a) ==> x.s[k] == old(x.s[k])
    {
      ghost var was := x.text[..at];
      assert x.s[x.off..x.off + at] == was;
      Store(x, at, data);
      x.text := was + data;
      Joined(x.s[..], x.off, at, x.len, was, data);
      assert x.s[x.off..x.off + x.len] == x.s[..][x.off..x.off + x.len];
    }

    // The same for a string of the pool.
    method Fill(x: Str, at: nat, data: string)
      requires Layout() && Others(x) && x in strs && x.s != null && at + |data| < x.a && at <= |x.text|
      requires at > 0 ==> Holds(x)
      modifies x`len, x`text, x.s
      ensures Valid() && x.text == old(x.text)[..at] + data && x.len == |x.text|
    {
      hide Apart, Holds;
      assert Placed(x);
      StoreText(x, at, data);
      Untouched(x);
    }

    static lemma Joined(s: string, off: nat, at: nat, len: nat, a: string, b: string)
      requires at <= len && off + len <= |s| && s[off..off + at] == a && s[off + at..off + len] == b
      ensures s[off..off + len] == a + b
    {
      Slices(s, off, off + at, off + len);
    }

    // Writing into one block leaves all other strings intact.
    twostate lemma Untouched(x: Str)
      requires old(Layout()) && old(Others(x)) && x in strs && strs == old(strs)
      requires x.s != null && old(x.s) == x.s && old(x.off) == x.off && old(x.a) == x.a
      requires forall y :: y in strs && y != x ==>
                 y.s == old(y.s) && y.off == old(y.off) && y.len == old(y.len) && y.text == old(y.text)
      requires forall y :: y in strs && y.s != null && y.s != x.s ==> y.s[..] == old(y.s[..])
      requires forall k :: 0 <= k < x.s.Length && !(x.off <= k < x.off + x.a) ==> x.s[k] == old(x.s[k])
      requires forall y :: y in strs ==> y.a == old(y.a)
      ensures Others(x)
    {
      forall y | y in strs && y != x ensures Holds(y) {
        assert old(Holds(y)) && old(Apart(x, y)) && old(Placed(y));
        if y.s != null && y.s != x.s {
          assert y.s[..][y.off + y.len] == old(y.s[..])[y.off + y.len];
          assert y.s[y.off..y.off + y.len] == y.s[..][y.off..y.off + y.len];
          assert old(y.s[y.off..y.off + y.len]) == old(y.s[..])[y.off..y.off + y.len];
        }
      }
    }

    lemma TextOf(x: Str)
      requires Valid() && x in strs
      ensures |x.text| == if x.s == null then 0 else x.len
      ensures x.text[..|x.text|] == x.text
    {
    }

    // stralloc_copyb
    method Copyb(x: Str, s: string, n: nat) returns (ok: bool)
      requires Valid() && x in strs && n <= |s|
      modifies `avail, x, space, (if x.s == null then {} else {x.s})
      ensures ok && Valid() && x.text == s[..n] && x.s != null && x.len == n
      ensures old(x.s) != null ==> Room(x.a, x.copied) == Ask(old(Room(x.a, x.copied)), n + 1)
    {
      hide Apart, Holds, Others;
      ok := Ready(x, n + 1);
      Fill(x, 0, s[..n]);
    }

    // stralloc_catb
    method Catb(x: Str, s: string, n: nat) returns (ok: bool)
      requires Valid() && x in strs && n <= |s|
      modifies `avail, x, space, (if x.s == null then {} else {x.s})
      ensures ok && Valid() && x.text == old(x.text) + s[..n] && x.s != null
      ensures old(x.s) != null ==> Room(x.a, x.copied) == Ask(old(Room(x.a, x.copied)), old(x.len) + n + 1)
    {
      hide Apart, Holds, Others;
      TextOf(x);
      if x.s == null {
        NilLeft(s[..n]);
        ok := Copyb(x, s, n);
        return;
      }
      ok := Readyplus(x, n + 1);
      Fill(x, x.len, s[..n]);
    }
  }
}
