// Runs of the hash map, from its creation on and with its own hash functions, after
// which growth has changed a lookup, an entry cannot be deleted, or a walk never ends.

module HashmapRuns {
  import opened Bytes
  import opened HashChains
  import opened HashCode
  import opened Hashmap

  // ---------------------------------------------------------------------------
  // Buckets
  // ---------------------------------------------------------------------------

  lemma {:induction false} AtHomeConcat(a: seq<Node>, b: seq<Node>, c: nat, size: nat)
    requires size > 0
    ensures AtHome(Rs, a + b, c, size) == AtHome(Rs, a, c, size) + AtHome(Rs, b, c, size)
  {
    hide Home;
    if a == [] {
      NilLeft(b);
      NilLeft(AtHome(Rs, b, c, size));
    } else {
      assert (a + b)[0] == a[0] && (a + b)[1..] == a[1..] + b;
      AtHomeConcat(a[1..], b, c, size);
      Assoc(if Home(Rs, a[0].key, size) == c then [a[0]] else [], AtHome(Rs, a[1..], c, size), AtHome(Rs, b, c, size));
    }
  }

  lemma {:induction false} NoneAtHome(ns: seq<Node>, c: nat, size: nat)
    requires size > 0 && forall n :: n in ns ==> Home(Rs, n.key, size) != c
    ensures AtHome(Rs, ns, c, size) == []
  {
    hide Home;
    if ns != [] {
      assert ns[0] in ns;
      NoneAtHome(ns[1..], c, size);
    }
  }

  // The nodes that belong into bucket `c` of the next table, if they share a bucket.
  lemma {:induction false} FromOneBucket(ch: Chains, b: nat, c: nat, size: nat)
    requires size > 0 && b < |ch|
    requires forall h, n :: 0 <= h < |ch| && h != b && n in ch[h] ==> Home(Rs, n.key, size) != c
    ensures AtHome(Rs, Flatten(ch), c, size) == AtHome(Rs, ch[b], c, size)
    decreases ch
  {
    hide Home;
    AtHomeConcat(ch[0], Flatten(ch[1..]), c, size);
    if b == 0 {
      forall n | n in Flatten(ch[1..]) ensures Home(Rs, n.key, size) != c {
        FlattenMember(ch[1..], n);
        var h :| 0 <= h < |ch| - 1 && n in ch[1..][h];
        assert n in ch[h + 1];
      }
      NoneAtHome(Flatten(ch[1..]), c, size);
    } else {
      NoneAtHome(ch[0], c, size);
      forall h, n | 0 <= h < |ch[1..]| && h != b - 1 && n in ch[1..][h] ensures Home(Rs, n.key, size) != c {
        assert n in ch[h + 1];
      }
      FromOneBucket(ch[1..], b - 1, c, size);
      NilLeft(AtHome(Rs, ch[b], c, size));
    }
  }

  // The chains after nodes have been linked into an empty table, and after it has
  // grown, where the nodes of bucket `c` come from bucket `b`.
  lemma LinkedThenGrown(ns: seq<Node>, b: nat, c: nat)
    requires b < 7 && c < 11
    requires forall n :: n in ns && Home(Rs, n.key, 11) == c ==> Home(Rs, n.key, 7) == b
    ensures var ch := LinkAll(Rs, Empty(7), ns);
            && ch[b] == Reverse(AtHome(Rs, ns, b, 7))
            && Grown(Rs, ch, 11)[c] == Reverse(AtHome(Rs, ch[b], c, 11))
  {
    hide Home, LinkAll, Grown;
    var ch := LinkAll(Rs, Empty(7), ns);
    LinkAllAt(Rs, Empty(7), ns, b);
    EmptyFlat(7);
    LinkAllConserves(Rs, Empty(7), ns);
    forall h, n: Node | 0 <= h < 7 && h != b && n in ch[h] ensures Home(Rs, n.key, 11) != c {
      MemberFlatten(ch, h, n);
      assert n in multiset(Flatten(ch));
      assert n in ns;
      assert InHome(Rs, ch[h], h, 7);
    }
    FromOneBucket(ch, b, c, 11);
    GrownAt(Rs, ch, 11, c);
  }

  // ---------------------------------------------------------------------------
  // Two keys that share a bucket, and five others
  // ---------------------------------------------------------------------------

  const OTHERS := ["A", "B", "C", "E", "G"]

  // Both keys are ASCII characters, share a bucket of seven with each other only, and
  // the bucket of the first in eleven with none but perhaps each other.
  predicate Pair(x: char, y: char) {
    var h, i := x as int, y as int;
    && h < 128 && i < 128 && h % 7 == i % 7 && (h % 7 == 0 || h % 7 == 5)
    && (h % 11 == 4 || h % 11 == 7)
  }

  lemma Homes(x: char, y: char)
    requires Pair(x, y)
    ensures forall size :: size > 0 ==> Home(Rs, [x], size) == x as int % size && Home(Rs, [y], size) == y as int % size
    ensures forall k :: k in OTHERS || k == "H" ==>
              Home(Rs, k, 7) != x as int % 7 && Home(Rs, k, 11) != x as int % 11
  {
    hide Rs, Bkdr;
    OneCharacter(x);
    OneCharacter(y);
    OneCharacter('A');
    OneCharacter('B');
    OneCharacter('C');
    OneCharacter('E');
    OneCharacter('G');
    OneCharacter('H');
  }

  // The map after the given insertions into a table of seven.
  ghost predicate Linked(m: Map, ns: seq<Node>)
    reads m, m.data, m.nodes
  {
    && m.Valid() && m.Settled() && m.rs == Rs && m.size == 7 && m.idx == 1 && m.used == |ns| <= 7
    && m.chains == LinkAll(Rs, Empty(7), ns) && forall n :: n in ns ==> n in m.nodes
  }

  lemma FirstSizes()
    ensures |Primes()| > 3 && Primes()[0] == 3 && Primes()[1] == 7 && Primes()[2] == 11
  {
  }

  lemma NothingLinked()
    ensures Grown(Rs, [], 7) == LinkAll(Rs, Empty(7), []) == Empty(7) && Flatten<Node>([]) == []
  {
  }

  lemma LinkedMore(ns: seq<Node>, n: Node)
    ensures LinkAll(Rs, Empty(7), ns + [n]) == LinkOne(Rs, LinkAll(Rs, Empty(7), ns), n)
  {
    hide LinkOne;
    LinkAllConcat(Rs, Empty(7), ns, [n]);
    var ch := LinkAll(Rs, Empty(7), ns);
    assert [n][1..] == [];
    assert LinkAll(Rs, ch, [n]) == LinkAll(Rs, LinkOne(Rs, ch, n), []);
  }

  // The first insertion into a map created for two entries.
  method Begin(key: string, value: Option<string>) returns (m: Map, n: Node)
    ensures fresh(m) && fresh(m.data) && fresh(m.nodes)
    ensures Linked(m, [n]) && n.key == key && n.value == value
  {
    hide Primes, Map.Buckets, Map.Settled, Map.Closed, Grown, LinkAll, LinkOne, Home, Homed;
    var m' := Map.Create(2, Rs, Bkdr);
    FirstSizes();
    NothingLinked();
    m := m';
    assert m.idx == 0;
    n := m.Insert(key, value);
    LinkedMore([], n);
    NilLeft([n]);
  }

  // An insertion for which there is room.
  method Put(m: Map, ghost ns: seq<Node>, key: string, value: Option<string>) returns (n: Node)
    requires Linked(m, ns) && |ns| < 7
    modifies m, m.data, m.nodes
    ensures Linked(m, ns + [n]) && fresh(n) && n.key == key && n.value == value
    ensures m.data == old(m.data) && m.nodes == old(m.nodes) + {n}
  {
    hide Map.Buckets, Map.Settled, LinkAll, LinkOne, Home, Homed;
    n := m.Insert(key, value);
    LinkedMore(ns, n);
  }

  // The nodes of a full table: those of the pair, and five that keep away from them.
  ghost predicate Seven(ns: seq<Node>, x: char, y: char) {
    && |ns| == 7 && ns[0] != ns[1] && ns[0].key == [x] && ns[1].key == [y]
    && forall i :: 2 <= i < 7 ==> ns[i].key in OTHERS
  }

  // A full table of seven.
  method Fill(x: char, vx: Option<string>, y: char, vy: Option<string>) returns (m: Map, ghost ns: seq<Node>)
    ensures fresh(m) && fresh(m.data) && fresh(m.nodes)
    ensures Linked(m, ns) && Seven(ns, x, y) && ns[0].value == vx && ns[1].value == vy
  {
    hide Map.Valid, Map.Settled, LinkAll;
    var a: Node;
    m, a := Begin([x], vx);
    var b := Put(m, [a], [y], vy);
    ns := [a, b];
    assert [a] + [b] == ns;
    for i := 0 to |OTHERS|
      invariant fresh(m) && fresh(m.data) && fresh(m.nodes) && Linked(m, ns) && |ns| == 2 + i
      invariant ns[0] == a && ns[1] == b && forall j :: 2 <= j < |ns| ==> ns[j].key in OTHERS
    {
      var n := Put(m, ns, OTHERS[i], None);
      ns := ns + [n];
    }
  }

  // Where the pair is before and after growth.
  lemma PairMoves(ns: seq<Node>, x: char, y: char)
    requires Seven(ns, x, y) && Pair(x, y)
    ensures var ch, b, c := LinkAll(Rs, Empty(7), ns), x as int % 7, x as int % 11;
            && ch[b] == [ns[1], ns[0]]
            && Grown(Rs, ch, 11)[c] == if y as int % 11 == c then [ns[0], ns[1]] else [ns[0]]
  {
    hide Home, LinkAll, Grown, Reverse;
    var b, c, p, more := x as int % 7, x as int % 11, [ns[0], ns[1]], ns[2..];
    Homes(x, y);
    assert ns == p + more;
    AtHomeConcat(p, more, b, 7);
    NoneAtHome(more, b, 7);
    TwoAtHome(ns[0], ns[1], b, 7);
    ReverseTwo(ns[0], ns[1]);
    ReverseTwo(ns[1], ns[0]);
    LinkedThenGrown(ns, b, c);
    TwoAtHome(ns[1], ns[0], c, 11);
  }

  lemma TwoAtHome(n: Node, k: Node, c: nat, size: nat)
    requires size > 0
    ensures AtHome(Rs, [n, k], c, size) ==
            (if Home(Rs, n.key, size) == c then [n] else []) + (if Home(Rs, k.key, size) == c then [k] else [])
  {
    hide Home;
    assert [n, k][1..] == [k] && [k][1..] == [];
    assert AtHome(Rs, [k], c, size) == if Home(Rs, k.key, size) == c then [k] else [];
  }

  lemma ReverseTwo(n: Node, k: Node)
    ensures Reverse([n, k]) == [k, n] && Reverse([n]) == [n]
  {
  }

  // The eighth insertion makes the table grow. The older of the pair is first in its
  // bucket then, and still points back to the newer one.
  method Overflow(m: Map, ghost ns: seq<Node>, x: char, y: char)
    requires Linked(m, ns) && Seven(ns, x, y) && Pair(x, y)
    modifies m, m.data, m.nodes
    ensures m.Valid() && m.rs == Rs && m.size == 11 && fresh(m.data) && fresh(m.nodes - old(m.nodes))
    ensures m.chains[x as int % 11] == if y as int % 11 == x as int % 11 then [ns[0], ns[1]] else [ns[0]]
    ensures ns[0] in m.nodes && ns[1] in m.nodes && ns[0].prev == ns[1]
  {
    hide LinkAll, Grown, Map.Settled, Pair, Home, Homed, Primes, Map.Buckets;
    PairMoves(ns, x, y);
    BackToSecond(m, ns, x);
    FirstSizes();
    Homes(x, y);
    var h := m.Insert("H", None);
    assert m.chains[x as int % 11][0] == ns[0];
  }

  lemma BackToSecond(m: Map, ns: seq<Node>, x: char)
    requires m.Valid() && |m.chains| == 7 && |ns| > 1 && m.chains[x as int % 7] == [ns[1], ns[0]]
    ensures ns[0].prev == ns[1]
  {
    var b := x as int % 7;
    assert m.Bucket(b);
    BackTo(m.chains[b], 1);
  }

  // ---------------------------------------------------------------------------
  // The runs
  // ---------------------------------------------------------------------------

  lemma MatchesOne(n: Node, k: string)
    ensures Matches([n], k) == if n.key == k then [n] else []
  {
    assert [n][1..] == [];
  }

  lemma MatchesTwo(n: Node, h: Node, k: string)
    ensures Matches([n, h], k) == (if n.key == k then [n] else []) + (if h.key == k then [h] else [])
  {
    assert [n, h] == [n] + [h];
    MatchesPush(n, [h], k);
    MatchesOne(h, k);
  }

  // Of two entries with one key the newer is found before growth, and the older after.
  method LookupChanges() returns (before: Option<string>, after: Option<string>)
    ensures before == Some("new") && after == Some("old")
  {
    hide Map.Valid, Map.Settled, LinkAll, Grown, Home, Matches;
    var m, ns := Fill('F', Some("old"), 'F', Some("new"));
    Homes('F', 'F');
    PairMoves(ns, 'F', 'F');
    MatchesTwo(ns[1], ns[0], "F");
    MatchesTwo(ns[0], ns[1], "F");
    SameSize(m);
    before := m.Find("F");
    Overflow(m, ns, 'F', 'F');
    SameSize(m);
    after := m.Find("F");
  }

  lemma SameSize(m: Map)
    requires m.Valid()
    ensures |m.chains| == m.size == m.data.Length
  {
  }

  lemma BucketOf(m: Map, c: nat)
    requires m.Valid() && c < |m.chains|
    ensures m.Bucket(c) && Known(m.chains[c], m.nodes)
  {
  }

  // An entry that is first in its bucket and points back to something is stale.
  lemma FirstIsStale(m: Map, a: Node)
    requires m.Valid() && m.size > 0 && a in m.nodes && a.prev != null
    requires var c := Home(m.rs, a.key, m.size); m.chains[c] != [] && m.chains[c][0] == a
    ensures m.Stale(a.key) && Lookup(m.chains, m.rs, a.key) == Some(a)
  {
    hide Home;
    var c := Home(m.rs, a.key, m.size);
    assert m.Bucket(c);
    assert Matches(m.chains[c], a.key)[0] == a;
  }

  // Deleting "F" is reported as done, and leaves it the first entry of its bucket.
  method CannotDelete() returns (m: Map, a: Node, r: int)
    ensures r == 0 && a.key == "F" && m.rs == Rs && m.size == m.data.Length == 11 && m.data[Home(Rs, "F", 11)] == a
  {
    hide Map.Valid, Map.Stale, Map.Settled, LinkAll, Grown, Home, Lookup;
    ghost var ns;
    m, ns := Fill('F', None, 'M', None);
    Homes('F', 'M');
    Overflow(m, ns, 'F', 'M');
    SameSize(m);
    FirstIsStale(m, ns[0]);
    r := m.Delete("F");
    a := m.data[4];
  }

  // Deleting "(" is reported as done, and closes its bucket to a ring: a walk along it,
  // as for an absent key, never ends.
  method NeverEnds() returns (m: Map, a: Node, r: int)
    ensures r == 0 && a.key == "(" && m.rs == Rs && m.size == m.data.Length == 11 && m.data[Home(Rs, "(", 11)] == a
    ensures |m.chains| == 11 && forall k :: Walk(m.chains[Home(Rs, "(", 11)], a, k) != null
  {
    hide Map.Valid, Map.Stale, Map.Settled, Map.Bucket, LinkAll, Grown, Home, Lookup;
    ghost var ns;
    m, ns := Fill('(', None, 'u', None);
    Homes('(', 'u');
    Overflow(m, ns, '(', 'u');
    SameSize(m);
    FirstIsStale(m, ns[0]);
    BucketOf(m, 7);
    label Before:
    r := m.Delete("(");
    a := m.data[7];
    m.WalkEnds@Before(7);
  }
}
