// The dictionary: three parallel arrays searched slot by slot, with cached hashes
// and doubling, standing for a map from strings to optional strings.

module Dictionary {
  import opened Bytes

  const DICTMINSZ := 128

  // How many slots are in use.
  function Used(keys: seq<Option<string>>): (n: nat)
    ensures n <= |keys|
  {
    if keys == [] then 0
    else Used(keys[..|keys| - 1]) + if keys[|keys| - 1].Some? then 1 else 0
  }

  lemma {:induction false} UsedUpdate(keys: seq<Option<string>>, i: nat, k: Option<string>)
    requires i < |keys|
    ensures Used(keys[i := k]) - (if k.Some? then 1 else 0) == Used(keys) - (if keys[i].Some? then 1 else 0)
  {
    var m, t := |keys| - 1, keys[i := k];
    if i == m {
      assert t[..m] == keys[..m];
    } else {
      assert t[..m] == keys[..m][i := k];
      UsedUpdate(keys[..m], i, k);
    }
  }

  // A table with fewer used slots than slots has an empty one.
  lemma {:induction false} EmptySlot(keys: seq<Option<string>>)
    requires Used(keys) < |keys|
    ensures exists i :: 0 <= i < |keys| && keys[i].None?
  {
    var m := |keys| - 1;
    if keys[m].Some? {
      EmptySlot(keys[..m]);
      var i :| 0 <= i < m && keys[..m][i].None?;
      assert keys[i].None?;
    }
  }

  lemma {:induction false} UsedPadding(keys: seq<Option<string>>, k: nat)
    ensures Used(keys + seq(k, _ => None)) == Used(keys)
  {
    var pad: seq<Option<string>> := seq(k, _ => None);
    if k == 0 {
      NilLeft(keys);
      assert pad == [];
    } else {
      var t := keys + pad;
      assert t[..|t| - 1] == keys + seq(k - 1, _ => None);
      UsedPadding(keys, k - 1);
    }
  }

  // Three parallel sequences that stand for the map `m`.
  ghost predicate Represents(keys: seq<Option<string>>, vals: seq<Option<string>>, hashes: seq<nat>,
                             hashOf: string -> nat, m: map<string, Option<string>>)
  {
    && |keys| == |vals| == |hashes|
    && (forall i :: 0 <= i < |keys| && keys[i].Some? ==> hashes[i] == hashOf(keys[i].value))
    && (forall i :: 0 <= i < |keys| && keys[i].Some? ==> keys[i].value in m && m[keys[i].value] == vals[i])
    && (forall i, j :: 0 <= i < j < |keys| && keys[i].Some? ==> keys[i] != keys[j])
    && (forall k :: k in m ==> Some(k) in keys)
  }

  lemma RepresentsPadding(keys: seq<Option<string>>, vals: seq<Option<string>>, hashes: seq<nat>,
                          hashOf: string -> nat, m: map<string, Option<string>>, n: nat)
    requires Represents(keys, vals, hashes, hashOf, m)
    ensures Represents(keys + seq(n, _ => None), vals + seq(n, _ => None), hashes + seq(n, _ => 0), hashOf, m)
  {
  }

  lemma RepresentsInsert(keys: seq<Option<string>>, vals: seq<Option<string>>, hashes: seq<nat>,
                         hashOf: string -> nat, m: map<string, Option<string>>, i: nat, k: string, v: Option<string>)
    requires Represents(keys, vals, hashes, hashOf, m) && i < |keys| && keys[i].None? && k !in m
    ensures Represents(keys[i := Some(k)], vals[i := v], hashes[i := hashOf(k)], hashOf, m[k := v])
  {
    var t := keys[i := Some(k)];
    forall k' | k' in m[k := v] ensures Some(k') in t {
      if k' != k {
        var j :| 0 <= j < |keys| && keys[j] == Some(k');
        assert t[j] == Some(k');
      } else {
        assert t[i] == Some(k);
      }
    }
  }

  lemma RepresentsReplace(keys: seq<Option<string>>, vals: seq<Option<string>>, hashes: seq<nat>,
                          hashOf: string -> nat, m: map<string, Option<string>>, i: nat, k: string, v: Option<string>)
    requires Represents(keys, vals, hashes, hashOf, m) && i < |keys| && keys[i] == Some(k)
    ensures Represents(keys, vals[i := v], hashes, hashOf, m[k := v])
  {
  }

  lemma RepresentsRemove(keys: seq<Option<string>>, vals: seq<Option<string>>, hashes: seq<nat>,
                         hashOf: string -> nat, m: map<string, Option<string>>, i: nat, k: string)
    requires Represents(keys, vals, hashes, hashOf, m) && i < |keys| && keys[i] == Some(k)
    ensures Represents(keys[i := None], vals[i := None], hashes[i := 0], hashOf, m - {k})
  {
    var t := keys[i := None];
    forall k' | k' in m - {k} ensures Some(k') in t {
      var j :| 0 <= j < |keys| && keys[j] == Some(k');
      assert t[j] == Some(k');
    }
  }

  lemma {:induction false} UsedPositive(keys: seq<Option<string>>, i: nat)
    requires i < |keys| && keys[i].Some?
    ensures Used(keys) > 0
  {
    if i < |keys| - 1 {
      UsedPositive(keys[..|keys| - 1], i);
    }
  }

  lemma NothingStored(keys: seq<Option<string>>, vals: seq<Option<string>>, hashes: seq<nat>,
                      hashOf: string -> nat, m: map<string, Option<string>>)
    requires Represents(keys, vals, hashes, hashOf, m) && Used(keys) == 0
    ensures m == map[]
  {
    forall k | k in m ensures false {
      var i :| 0 <= i < |keys| && keys[i] == Some(k);
      UsedPositive(keys, i);
    }
  }

  lemma {:induction false} AnyUsed(keys: seq<Option<string>>)
    requires Used(keys) > 0
    ensures exists i :: 0 <= i < |keys| && keys[i].Some?
  {
    var m := |keys| - 1;
    if keys[m].None? {
      AnyUsed(keys[..m]);
      var i :| 0 <= i < m && keys[..m][i].Some?;
      assert keys[i].Some?;
    }
  }

  lemma KeyOf(keys: seq<Option<string>>, vals: seq<Option<string>>, hashes: seq<nat>,
              hashOf: string -> nat, m: map<string, Option<string>>, i: nat)
    requires Represents(keys, vals, hashes, hashOf, m) && i < |keys| && keys[i].Some?
    ensures |keys| == |vals| == |hashes| && keys[i].value in m
  {
  }

  lemma MapShrinks(m: map<string, Option<string>>, k: string)
    requires k in m
    ensures |m - {k}| == |m| - 1
  {
    assert (m - {k})[k := m[k]] == m;
  }

  // The slots in use are as many as the keys of the map.
  lemma {:induction false} UsedCountsKeys(keys: seq<Option<string>>, vals: seq<Option<string>>, hashes: seq<nat>,
                                          hashOf: string -> nat, m: map<string, Option<string>>)
    requires Represents(keys, vals, hashes, hashOf, m)
    ensures Used(keys) == |m|
    decreases Used(keys)
  {
    hide Represents;
    if Used(keys) == 0 {
      NothingStored(keys, vals, hashes, hashOf, m);
    } else {
      AnyUsed(keys);
      var i :| 0 <= i < |keys| && keys[i].Some?;
      var k := keys[i].value;
      KeyOf(keys, vals, hashes, hashOf, m, i);
      RepresentsRemove(keys, vals, hashes, hashOf, m, i, k);
      UsedUpdate(keys, i, None);
      UsedCountsKeys(keys[i := None], vals[i := None], hashes[i := 0], hashOf, m - {k});
      MapShrinks(m, k);
    }
  }

  // Between two states of the arrays: `k` and `v` are put into the first slot that was
  // empty, counting slots that are new as empty, and all other slots stay.
  ghost predicate Placed(keys: seq<Option<string>>, vals: seq<Option<string>>,
                         keys': seq<Option<string>>, vals': seq<Option<string>>, k: string, v: Option<string>)
  {
    && |keys| == |vals| <= |keys'| == |vals'|
    && exists i :: 0 <= i < |keys'| && PlacedAt(keys, vals, keys', vals', k, v, i)
  }

  predicate PlacedAt(keys: seq<Option<string>>, vals: seq<Option<string>>,
                     keys': seq<Option<string>>, vals': seq<Option<string>>, k: string, v: Option<string>, i: nat)
    requires |keys| == |vals| <= |keys'| == |vals'| && i < |keys'|
  {
    && keys'[i] == Some(k) && vals'[i] == v
    && i <= |keys| && (forall j :: 0 <= j < i ==> keys[j].Some?)
    && (i < |keys| ==> keys[i].None?)
    && (forall j :: 0 <= j < |keys'| && j != i ==>
          keys'[j] == (if j < |keys| then keys[j] else None) && vals'[j] == (if j < |vals| then vals[j] else None))
  }

  lemma Fills(keys: seq<Option<string>>, vals: seq<Option<string>>, n: nat,
              base: seq<Option<string>>, baseV: seq<Option<string>>, k: string, v: Option<string>, i: nat)
    requires |keys| == |vals| && base == keys + seq(n, _ => None) && baseV == vals + seq(n, _ => None)
    requires i < |base| && base[i].None? && forall j :: 0 <= j < i ==> base[j].Some?
    ensures PlacedAt(keys, vals, base[i := Some(k)], baseV[i := v], k, v, i)
  {
    assert i > 0 ==> base[i - 1].Some?;
    forall j | 0 <= j < i ensures keys[j].Some? {
      assert base[j].Some?;
    }
  }

  lemma NoPad(keys: seq<Option<string>>)
    ensures keys + seq(0, _ => None) == keys
  {
  }

  lemma OnlySlot(keys: seq<Option<string>>, vals: seq<Option<string>>, hashes: seq<nat>,
                 hashOf: string -> nat, m: map<string, Option<string>>, k: string, v: Option<string>, i: nat)
    requires Represents(keys, vals, hashes, hashOf, m) && i < |keys| && keys[i] == Some(k)
    ensures |vals| == |keys| && Replaced(keys, vals, vals[i := v], k, v)
  {
  }

  // A value is replaced where the key is.
  predicate Replaced(keys: seq<Option<string>>, vals: seq<Option<string>>, vals': seq<Option<string>>,
                     k: string, v: Option<string>)
  {
    |keys| == |vals| == |vals'| &&
    forall i :: 0 <= i < |keys| ==> vals'[i] == if keys[i] == Some(k) then v else vals[i]
  }

  // mem_double: twice the room, the old contents first, zeros behind.
  method MemDouble<T>(a: array<T>, zero: T) returns (b: array<T>)
    ensures fresh(b) && b[..] == a[..] + seq(a.Length, _ => zero)
  {
    b := new T[2 * a.Length](_ => zero);
    forall i | 0 <= i < a.Length {
      b[i] := a[i];
    }
  }

  class Table {
    const hashOf: string -> nat
    var n: nat
    var size: nat
    var key: array<Option<string>>
    var val: array<Option<string>>
    var hash: array<nat>
    ghost var M: map<string, Option<string>>

    ghost predicate Valid()
      reads this, key, val, hash
    {
      && key != val && key.Length == val.Length == hash.Length == size && 0 < size
      && n == Used(key[..])
      && Represents(key[..], val[..], hash[..], hashOf, M)
    }

    // dictionary_new
    constructor (size0: int, hashOf: string -> nat)
      ensures Valid() && M == map[] && this.hashOf == hashOf
      ensures size == (if size0 < 128 then 128 else size0) && forall i :: 0 <= i < key.Length ==> key[i].None?
      ensures fresh(key) && fresh(val) && fresh(hash)
    {
      var m: nat := if size0 < DICTMINSZ then DICTMINSZ else size0;
      this.hashOf := hashOf;
      n, size, M := 0, m, map[];
      key := new Option<string>[m](_ => None);
      val := new Option<string>[m](_ => None);
      hash := new nat[m](_ => 0);
      new;
      NoneUsed(key[..]);
    }

    static lemma NoneUsed(keys: seq<Option<string>>)
      requires forall i :: 0 <= i < |keys| ==> keys[i].None?
      ensures Used(keys) == 0
    {
      if keys != [] {
        NoneUsed(keys[..|keys| - 1]);
      }
    }

    // The scanning loop that get, set and unset share: the slot of `k`, or `size`.
    method Find(k: string) returns (i: nat)
      requires Valid()
      ensures i <= size && (i < size <==> k in M) && (i < size ==> key[i] == Some(k) && M[k] == val[i])
    {
      var h := hashOf(k);
      ghost var keys, vals, hashes := key[..], val[..], hash[..];
      i := 0;
      while i < size
        invariant i <= size && forall j :: 0 <= j < i ==> keys[j] != Some(k)
      {
        assert keys[i] == key[i] && vals[i] == val[i] && hashes[i] == hash[i];
        if key[i].Some? && h == hash[i] && k == key[i].value {
          return;
        }
        i := i + 1;
      }
    }

    // dictionary_get
    method Get(k: string, def: Option<string>) returns (r: Option<string>)
      requires Valid()
      ensures r == if k in M then M[k] else def
    {
      var i := Find(k);
      r := if i < size then val[i] else def;
    }

    // The doubling in dictionary_set.
    method Double()
      requires Valid()
      modifies `size, `key, `val, `hash
      ensures Valid() && size == 2 * old(size) && n == old(n) && M == old(M)
      ensures fresh(key) && fresh(val) && fresh(hash)
      ensures key[..] == old(key[..]) + seq(old(size), _ => None)
      ensures val[..] == old(val[..]) + seq(old(size), _ => None)
    {
      UsedPadding(key[..], size);
      RepresentsPadding(key[..], val[..], hash[..], hashOf, M, size);
      key := MemDouble(key, None);
      val := MemDouble(val, None);
      hash := MemDouble(hash, 0);
      size := 2 * size;
    }

    // The first empty slot, which is always there when not all slots are used.
    method FirstEmpty() returns (i: nat)
      requires Valid() && n < size
      ensures i < size && key[i].None? && forall j :: 0 <= j < i ==> key[j].Some?
    {
      EmptySlot(key[..]);
      ghost var e :| 0 <= e < size && key[..][e].None?;
      i := 0;
      while i < size
        invariant i <= e && forall j :: 0 <= j < i ==> key[j].Some?
      {
        if key[i].None? {
          return;
        }
        i := i + 1;
      }
    }

    // A new key goes into an empty slot.
    method Fill(i: nat, k: string, v: Option<string>)
      requires Valid() && k !in M && i < size && key[i].None?
      modifies `n, `M, key, val, hash
      ensures Valid() && M == old(M)[k := v] && n == old(n) + 1
      ensures key[..] == old(key[..])[i := Some(k)] && val[..] == old(val[..])[i := v]
    {
      hide Represents;
      RepresentsInsert(key[..], val[..], hash[..], hashOf, M, i, k, v);
      UsedUpdate(key[..], i, Some(k));
      key[i] := Some(k);
      val[i] := v;
      hash[i] := hashOf(k);
      assert key[..] == old(key[..])[i := Some(k)] && val[..] == old(val[..])[i := v];
      assert hash[..] == old(hash[..])[i := hashOf(k)];
      n := n + 1;
      M := M[k := v];
    }

    // The second half of dictionary_set: a new key goes into the first empty slot,
    // after doubling a full table.
    method Add(k: string, v: Option<string>)
      requires Valid() && k !in M
      modifies this, key, val, hash
      ensures Valid() && M == old(M)[k := v]
      ensures old(n) < old(size) ==> key == old(key) && val == old(val) && hash == old(hash)
      ensures old(n) == old(size) ==> fresh(key) && fresh(val) && fresh(hash)
      ensures old(n) <= old(size) && n <= size
      ensures size == if old(n) == old(size) then 2 * old(size) else old(size)
      ensures Placed(old(key[..]), old(val[..]), key[..], val[..], k, v)
    {
      hide Represents, PlacedAt;
      ghost var p := if n == size then size else 0;
      NoPad(key[..]);
      NoPad(val[..]);
      if n == size {
        Double();
      }
      var i := FirstEmpty();
      Fills(old(key[..]), old(val[..]), p, key[..], val[..], k, v, i);
      Fill(i, k, v);
      assert PlacedAt(old(key[..]), old(val[..]), key[..], val[..], k, v, i);
    }

    // dictionary_set, whose return value is 0.
    method Set(k: string, v: Option<string>)
      requires Valid()
      modifies this, key, val, hash
      ensures Valid() && M == old(M)[k := v]
      ensures (key == old(key) && val == old(val) && hash == old(hash)) || (fresh(key) && fresh(val) && fresh(hash))
      ensures size == if k !in old(M) && old(n) == old(size) then 2 * old(size) else old(size)
      ensures if k in old(M) then key[..] == old(key[..]) && Replaced(key[..], old(val[..]), val[..], k, v)
              else Placed(old(key[..]), old(val[..]), key[..], val[..], k, v)
    {
      hide Represents, Placed, Replaced;
      var i := size;
      if n > 0 {
        i := Find(k);
      } else {
        NothingStored(key[..], val[..], hash[..], hashOf, M);
      }
      if i < size {
        OnlySlot(key[..], val[..], hash[..], hashOf, M, k, v, i);
        RepresentsReplace(key[..], val[..], hash[..], hashOf, M, i, k, v);
        val[i] := v;
        M := M[k := v];
      } else {
        Add(k, v);
      }
    }

    lemma Unfound(k: string)
      requires Valid() && k !in M
      ensures forall i :: 0 <= i < size ==> key[i] != Some(k)
    {
      assert forall i :: 0 <= i < size ==> key[..][i] == key[i];
    }

    lemma OnlyOne(i: nat, k: string)
      requires Valid() && i < size && key[i] == Some(k)
      ensures forall j :: 0 <= j < size && j != i ==> key[j] != Some(k)
    {
      assert forall j :: 0 <= j < size ==> key[..][j] == key[j];
    }

    // dictionary_unset
    method Unset(k: string)
      requires Valid()
      modifies this, key, val, hash
      ensures Valid() && M == old(M) - {k}
      ensures key == old(key) && val == old(val) && hash == old(hash) && size == old(size)
      ensures forall i :: 0 <= i < size ==>
                if old(key[i]) == Some(k) then key[i] == None == val[i]
                else key[i] == old(key[i]) && val[i] == old(val[i])
    {
      hide Represents, Replaced;
      var i := Find(k);
      if i >= size {
        Unfound(k);
        return;
      }
      OnlyOne(i, k);
      RepresentsRemove(key[..], val[..], hash[..], hashOf, M, i, k);
      UsedUpdate(key[..], i, None);
      key[i] := None;
      val[i] := None;
      hash[i] := 0;
      n := n - 1;
      M := M - {k};
    }
  }
}
