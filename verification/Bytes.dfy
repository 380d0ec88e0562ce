// Bytes and the small sequence vocabulary shared by the models.

module Bytes {
  // A C `unsigned char`.
  type byte = bv8

  datatype Option<+T> = None | Some(value: T)

  function Min(a: nat, b: nat): nat {
    if a <= b then a else b
  }

  // Facts about sequences, kept apart so that no proof repeats them.
  lemma Assoc<T>(a: seq<T>, b: seq<T>, c: seq<T>)
    ensures a + b + c == a + (b + c)
  {
  }

  lemma NilLeft<T>(a: seq<T>)
    ensures [] + a == a && a + [] == a
  {
  }

  lemma Drops<T>(s: seq<T>, i: nat, j: nat)
    requires i + j <= |s|
    ensures s[i..][j..] == s[i + j..]
  {
  }

  lemma DropAll<T>(s: seq<T>)
    ensures s[0..] == s && s[..|s|] == s && s[|s|..] == []
  {
  }

  lemma Slices<T>(a: seq<T>, i: nat, j: nat, k: nat)
    requires i <= j <= k <= |a|
    ensures a[i..j] + a[j..k] == a[i..k]
  {
  }

  lemma Grow<T>(b: seq<T>, g: seq<T>, k: nat)
    requires k < |g|
    ensures b + g[..k] + [g[k]] == b + g[..k + 1] <= b + g
    ensures k + 1 == |g| ==> b + g[..k + 1] == b + g
  {
    assert g[..k] + [g[k]] == g[..k + 1];
  }

  // All chunks glued together, in order.
  function Flatten<T>(chunks: seq<seq<T>>): seq<T> {
    if chunks == [] then [] else chunks[0] + Flatten(chunks[1..])
  }

  lemma {:induction false} FlattenConcat<T>(a: seq<seq<T>>, b: seq<seq<T>>)
    ensures Flatten(a + b) == Flatten(a) + Flatten(b)
  {
    if a == [] {
      assert a + b == b;
    } else {
      calc {
        Flatten(a + b);
        { assert (a + b)[0] == a[0] && (a + b)[1..] == a[1..] + b; }
        a[0] + Flatten(a[1..] + b);
        { FlattenConcat(a[1..], b); }
        a[0] + (Flatten(a[1..]) + Flatten(b));
        Flatten(a) + Flatten(b);
      }
    }
  }
}
