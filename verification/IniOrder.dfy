// The order of the keys of a loaded dictionary: that of their first appearance in the
// text.

module IniOrder {
  import opened Bytes
  import opened IniLine
  import Dictionary

  // ---------------------------------------------------------------------------
  // First appearances
  // ---------------------------------------------------------------------------

  function Added(s: seq<string>, x: string): seq<string> {
    if x in s then s else s + [x]
  }

  function AddAll(acc: seq<string>, s: seq<string>): seq<string>
    decreases s
  {
    if s == [] then acc else AddAll(Added(acc, s[0]), s[1..])
  }

  // The elements of a sequence, each where it appears first.
  function Firsts(s: seq<string>): seq<string> {
    AddAll([], s)
  }

  predicate AllDiffer(s: seq<string>) {
    forall i, j :: 0 <= i < j < |s| ==> s[i] != s[j]
  }

  // Where an element appears first.
  function IndexOf(s: seq<string>, x: string): (i: nat)
    ensures i <= |s| && (forall j :: 0 <= j < i ==> s[j] != x) && (i < |s| ==> s[i] == x)
  {
    if s == [] || s[0] == x then 0 else 1 + IndexOf(s[1..], x)
  }

  lemma {:induction false} AddAllConcat(acc: seq<string>, a: seq<string>, b: seq<string>)
    ensures AddAll(acc, a + b) == AddAll(AddAll(acc, a), b)
    decreases a
  {
    hide Added;
    if a == [] {
      NilLeft(b);
    } else {
      assert (a + b)[0] == a[0] && (a + b)[1..] == a[1..] + b;
      AddAllConcat(Added(acc, a[0]), a[1..], b);
    }
  }

  lemma FirstsSnoc(s: seq<string>, x: string)
    ensures Firsts(s + [x]) == Added(Firsts(s), x)
  {
    hide Added;
    AddAllConcat([], s, [x]);
    assert [x][1..] == [];
  }

  // `f` lists elements of `s` in the order of their first appearance.
  predicate InOrder(f: seq<string>, s: seq<string>) {
    forall i, j :: 0 <= i < j < |f| ==> IndexOf(s, f[i]) < IndexOf(s, f[j]) < |s|
  }

  // They are the elements of the sequence, each once, in the order of their first
  // appearance.
  lemma {:induction false} FirstsAre(s: seq<string>)
    ensures AllDiffer(Firsts(s)) && forall x :: x in Firsts(s) <==> x in s
    ensures InOrder(Firsts(s), s)
    decreases |s|
  {
    hide Firsts, IndexOf, Added, InOrder, AllDiffer;
    if s == [] {
      NoFirsts();
    } else {
      var n := |s| - 1;
      var t, x := s[..n], s[n];
      assert s == t + [x];
      FirstsSnoc(t, x);
      FirstsAre(t);
      forall y | y in t ensures IndexOf(s, y) == IndexOf(t, y) < n {
        SameIndex(t, x, y);
      }
      if x !in t {
        SameIndex(t, x, x);
      }
      FirstsOrdered(s, t, x, Firsts(t), Firsts(s));
    }
  }

  lemma FirstsOrdered(s: seq<string>, t: seq<string>, x: string, g: seq<string>, f: seq<string>)
    requires s == t + [x] && f == Added(g, x) && AllDiffer(g) && forall y :: y in g <==> y in t
    requires forall y :: y in t ==> IndexOf(s, y) == IndexOf(t, y) < |t|
    requires x !in t ==> IndexOf(s, x) == |t|
    requires InOrder(g, t)
    ensures AllDiffer(f) && InOrder(f, s) && forall y :: y in f <==> y in s
  {
    hide IndexOf;
    forall i, j | 0 <= i < j < |f| ensures IndexOf(s, f[i]) < IndexOf(s, f[j]) < |s| {
      assert f[i] == g[i] && g[i] in t;
      assert j < |g| ==> f[j] == g[j] && g[j] in t;
    }
  }

  lemma NoFirsts()
    ensures Firsts([]) == [] && AllDiffer([]) && InOrder([], [])
  {
  }

  lemma SameIndex(t: seq<string>, x: string, y: string)
    ensures y in t ==> IndexOf(t + [x], y) == IndexOf(t, y) < |t|
    ensures y !in t && y == x ==> IndexOf(t + [x], y) == |t|
  {
    hide IndexOf;
    var s := t + [x];
    assert forall j :: 0 <= j < |t| ==> s[j] == t[j];
    assert s[|t|] == x;
  }

  lemma {:induction false} FirstsOfDifferent(acc: seq<string>, s: seq<string>)
    requires AllDiffer(s) && forall x :: x in s ==> x !in acc
    ensures AddAll(acc, s) == acc + s
    decreases s
  {
    if s == [] {
      NilLeft(acc);
    } else {
      assert s[0] in s;
      FirstsOfDifferent(acc + [s[0]], s[1..]);
      assert acc + s == acc + [s[0]] + s[1..];
    }
  }

  // ---------------------------------------------------------------------------
  // The keys of lines
  // ---------------------------------------------------------------------------

  // The key that a line stores, if any, and the section behind it.
  function Stored(line: string, section: string): Option<string> {
    match Classify(line, section)
    case Section(name) => Some(name)
    case Value(key, _) => Some(section + ":" + key)
    case _ => None
  }

  function SectionAfter(line: string, section: string): string {
    match Classify(line, section)
    case Section(name) => name
    case _ => section
  }

  // All keys that are stored, in order.
  function StoredKeys(section: string, lines: seq<string>): seq<string>
    decreases lines
  {
    if lines == [] then [] else
    (match Stored(lines[0], section)
     case Some(k) => [k]
     case None => []) + StoredKeys(SectionAfter(lines[0], section), lines[1..])
  }

  function AddStored(order: seq<string>, line: string, section: string): seq<string> {
    match Stored(line, section)
    case Some(k) => Added(order, k)
    case None => order
  }

  lemma NoneStored(order: seq<string>, section: string)
    ensures AddAll(order, StoredKeys(section, [])) == order
  {
  }

  lemma StoredStep(order: seq<string>, section: string, line: string, more: seq<string>)
    ensures AddAll(order, StoredKeys(section, [line] + more)) ==
            AddAll(AddStored(order, line, section), StoredKeys(SectionAfter(line, section), more))
  {
    hide Stored, SectionAfter, Added;
    assert ([line] + more)[1..] == more;
    var keys := StoredKeys(SectionAfter(line, section), more);
    match Stored(line, section)
    case Some(k) =>
      assert ([k] + keys)[1..] == keys;
    case None =>
      NilLeft(keys);
  }

  // ---------------------------------------------------------------------------
  // The slots of a table
  // ---------------------------------------------------------------------------

  // The keys of `order` in the first slots, and nothing behind them.
  predicate Lined(keys: seq<Option<string>>, order: seq<string>) {
    |order| <= |keys| && forall i :: 0 <= i < |keys| ==> keys[i] == if i < |order| then Some(order[i]) else None
  }

  lemma LinedNone(keys: seq<Option<string>>)
    requires forall i :: 0 <= i < |keys| ==> keys[i].None?
    ensures Lined(keys, [])
  {
  }

  // A new key lines up behind the others.
  lemma LinedPlaced(keys: seq<Option<string>>, vals: seq<Option<string>>,
                    keys': seq<Option<string>>, vals': seq<Option<string>>, k: string, v: Option<string>,
                    order: seq<string>)
    requires Lined(keys, order) && Dictionary.Placed(keys, vals, keys', vals', k, v)
    ensures Lined(keys', order + [k])
  {
    var i :| 0 <= i < |keys'| && Dictionary.PlacedAt(keys, vals, keys', vals', k, v, i);
    assert i > 0 ==> keys[i - 1].Some?;
    assert i < |keys| ==> i >= |order|;
  }

  lemma LinedHas(keys: seq<Option<string>>, vals: seq<Option<string>>, hashes: seq<nat>,
                 hashOf: string -> nat, m: map<string, Option<string>>, order: seq<string>, k: string)
    requires Dictionary.Represents(keys, vals, hashes, hashOf, m) && Lined(keys, order)
    ensures k in m <==> k in order
  {
    if k in order {
      var i :| 0 <= i < |order| && order[i] == k;
      assert keys[i] == Some(k);
    }
  }

  // Setting a key adds it behind the others, unless it is there.
  method SetLined(d: Dictionary.Table, k: string, v: Option<string>, ghost order: seq<string>)
    requires d.Valid() && Lined(d.key[..], order)
    modifies d, d.key, d.val, d.hash
    ensures d.Valid() && d.M == old(d.M)[k := v] && Lined(d.key[..], Added(order, k))
    ensures (d.key == old(d.key) && d.val == old(d.val) && d.hash == old(d.hash))
         || (fresh(d.key) && fresh(d.val) && fresh(d.hash))
  {
    hide d.Valid, Lined, Dictionary.Placed, Dictionary.Replaced;
    KnownIn(d, order, k);
    ghost var keys, vals := d.key[..], d.val[..];
    d.Set(k, v);
    if k !in order {
      LinedPlaced(keys, vals, d.key[..], d.val[..], k, v, order);
    }
  }

  lemma KnownIn(d: Dictionary.Table, order: seq<string>, k: string)
    requires d.Valid() && Lined(d.key[..], order)
    ensures k in d.M <==> k in order
  {
    LinedHas(d.key[..], d.val[..], d.hash[..], d.hashOf, d.M, order, k);
  }
}
