// The hash map on the heap: a bucket array of doubly linked chains that grows along
// a table of primes.

module Hashmap {
  import opened Bytes
  import opened HashChains

  // ---------------------------------------------------------------------------
  // The table of primes
  // ---------------------------------------------------------------------------

  const ROW0: seq<nat> := [3, 7, 11, 17, 23, 29, 37, 47, 59, 71, 89]
  const ROW1: seq<nat> := [107, 131, 163, 197, 239, 293, 353, 431, 521, 631, 761, 919]
  const ROW2: seq<nat> := [1103, 1327, 1597, 1931, 2333, 2801, 3371, 4049, 4861, 5839, 7013, 8419]
  const ROW3: seq<nat> := [10103, 12143, 14591, 17519, 21023, 25229, 30293, 36353, 43627, 52361, 62851, 75431, 90523]
  const ROW4: seq<nat> := [108631, 130363, 156437, 187751, 225307, 270371, 324449, 389357, 467237, 560689, 672827,
                           807403, 968897]
  const ROW5: seq<nat> := [1162687, 1395263, 1674319, 2009191, 2411033, 2893249, 3471899, 4166287, 4999559, 5999471,
                           7199369]

  function Primes(): seq<nat> {
    ROW0 + ROW1 + ROW2 + ROW3 + ROW4 + ROW5
  }

  predicate Ascending(s: seq<nat>) {
    forall i :: 0 <= i < |s| ==> 0 < s[i] && (i + 1 < |s| ==> s[i] < s[i + 1])
  }

  lemma AscendingConcat(a: seq<nat>, b: seq<nat>)
    requires Ascending(a) && Ascending(b) && a != [] && b != [] && a[|a| - 1] < b[0]
    ensures Ascending(a + b) && (a + b)[|a + b| - 1] == b[|b| - 1]
  {
  }

  lemma PrimesAscend()
    ensures Ascending(Primes()) && |Primes()| == 72 && Primes()[71] == 7199369
    ensures forall i :: 0 <= i < 72 ==> Primes()[i] <= 7199369
  {
    hide Primes;
    PrimeRows();
    forall i | 0 <= i < 72 ensures Primes()[i] <= 7199369 {
      AscendingOrder(Primes(), i, 71);
    }
  }

  lemma {:induction false} AscendingOrder(s: seq<nat>, i: nat, j: nat)
    requires Ascending(s) && i <= j < |s|
    ensures s[i] <= s[j]
    decreases j - i
  {
    if i < j {
      AscendingOrder(s, i, j - 1);
    }
  }

  lemma PrimeRows()
    ensures Ascending(Primes()) && |Primes()| == 72 && Primes()[71] == 7199369
  {
    LowRows();
    HighRows();
    AscendingConcat(ROW0, ROW1);
    AscendingConcat(ROW0 + ROW1, ROW2);
    AscendingConcat(ROW0 + ROW1 + ROW2, ROW3);
    AscendingConcat(ROW0 + ROW1 + ROW2 + ROW3, ROW4);
    AscendingConcat(ROW0 + ROW1 + ROW2 + ROW3 + ROW4, ROW5);
  }

  lemma LowRows()
    ensures Ascending(ROW0) && Ascending(ROW1) && Ascending(ROW2)
  {
  }

  lemma HighRows()
    ensures Ascending(ROW3) && Ascending(ROW4) && Ascending(ROW5)
  {
  }

  // Every size is more than the one before by a fifth at least, and less than threefold.
  predicate Spaced(s: seq<nat>) {
    forall i :: 0 <= i < |s| && i + 1 < |s| ==> 6 * s[i] <= 5 * s[i + 1] && s[i + 1] < 3 * s[i]
  }

  lemma SpacedConcat(a: seq<nat>, b: seq<nat>)
    requires Spaced(a) && Spaced(b) && a != [] && b != []
    requires 6 * a[|a| - 1] <= 5 * b[0] && b[0] < 3 * a[|a| - 1]
    ensures Spaced(a + b) && (a + b)[|a + b| - 1] == b[|b| - 1]
  {
  }

  lemma Spaced0()
    ensures Spaced(ROW0)
  {
  }

  lemma Spaced1()
    ensures Spaced(ROW1)
  {
  }

  lemma Spaced2()
    ensures Spaced(ROW2)
  {
  }

  lemma Spaced3()
    ensures Spaced(ROW3)
  {
  }

  lemma Spaced4()
    ensures Spaced(ROW4)
  {
  }

  lemma Spaced5()
    ensures Spaced(ROW5)
  {
  }

  lemma PrimesSpaced()
    ensures Spaced(Primes()) && |Primes()| == 72 && Primes()[0] == 3
  {
    Spaced0();
    Spaced1();
    Spaced2();
    Spaced3();
    Spaced4();
    Spaced5();
    SpacedConcat(ROW0, ROW1);
    SpacedConcat(ROW0 + ROW1, ROW2);
    SpacedConcat(ROW0 + ROW1 + ROW2, ROW3);
    SpacedConcat(ROW0 + ROW1 + ROW2 + ROW3, ROW4);
    SpacedConcat(ROW0 + ROW1 + ROW2 + ROW3 + ROW4, ROW5);
  }

  function Total(s: seq<nat>): nat {
    if s == [] then 0 else Total(s[..|s| - 1]) + s[|s| - 1]
  }

  // A table is grown when it has as many entries as buckets, and then relinks them all:
  // over all growths up to a size together, at most five entries for each of its buckets.
  lemma {:induction false} RelinkingIsLinear(i: nat)
    requires i < 72
    ensures |Primes()| == 72 && Total(Primes()[..i]) <= 5 * Primes()[i]
  {
    hide Primes;
    PrimesSpaced();
    if i > 0 {
      RelinkingIsLinear(i - 1);
      assert Primes()[..i][..i - 1] == Primes()[..i - 1];
    }
  }

  // ---------------------------------------------------------------------------
  // Pointers
  // ---------------------------------------------------------------------------

  // The forward pointers of a bucket.
  ghost predicate Strung(home: array?<Node?>, b: nat, ns: seq<Node>)
    reads ns`home, ns`bucket, ns`next
  {
    && Distinct(ns)
    && (forall i {:trigger ns[i].home} :: 0 <= i < |ns| ==> ns[i].home == home && ns[i].bucket == b)
    && (forall i {:trigger ns[i].next} :: 0 <= i < |ns| ==> ns[i].next == if i + 1 < |ns| then ns[i + 1] else null)
  }

  // The backward pointers. What the first node points back to is anyone's guess.
  ghost predicate Backed(ns: seq<Node>)
    reads (if ns == [] then [] else ns[1..])`prev
  {
    assert forall i :: 0 < i < |ns| ==> ns[i] == ns[1..][i - 1];
    forall i {:trigger ns[i].prev} :: 0 < i < |ns| ==> ns[i].prev == ns[i - 1]
  }

  ghost predicate Known(ns: seq<Node>, nodes: set<Node>) {
    forall n :: n in ns ==> n in nodes
  }

  function Head(ns: seq<Node>): Node? {
    if ns == [] then null else ns[0]
  }

  lemma NotThere(home: array?<Node?>, b: nat, ns: seq<Node>, n: Node)
    requires Strung(home, b, ns) && (n.home != home || n.bucket != b)
    ensures n !in ns
  {
    forall i | 0 <= i < |ns| ensures ns[i] != n {
      assert ns[i].home == home;
    }
  }

  lemma Push(home: array?<Node?>, b: nat, ns: seq<Node>, n: Node)
    requires Strung(home, b, ns) && Backed(ns) && n !in ns
    requires n.home == home && n.bucket == b && n.next == Head(ns)
    requires ns != [] ==> ns[0].prev == n
    ensures Strung(home, b, [n] + ns) && Backed([n] + ns)
  {
    var t := [n] + ns;
    forall i {:trigger t[i].home} | 0 <= i < |t| ensures t[i].home == home && t[i].bucket == b {
      assert i > 0 ==> t[i] == ns[i - 1] && ns[i - 1].home == home;
    }
    forall i {:trigger t[i].next} | 0 <= i < |t| ensures t[i].next == if i + 1 < |t| then t[i + 1] else null {
      assert i > 0 ==> t[i] == ns[i - 1] && ns[i - 1].next == if i < |ns| then ns[i] else null;
    }
    forall i {:trigger t[i].prev} | 0 < i < |t| ensures t[i].prev == t[i - 1] {
      assert t[i] == ns[i - 1];
    }
  }

  // A chain whose pointers lead around node `i`.
  lemma LedAround(home: array?<Node?>, b: nat, ns: seq<Node>, i: nat)
    requires Distinct(ns) && i < |ns|
    requires forall k {:trigger ns[k].home} :: 0 <= k < |ns| && k != i ==> ns[k].home == home && ns[k].bucket == b
    requires forall k {:trigger ns[k].next} :: 0 <= k < |ns| && k != i ==>
               ns[k].next == if k + 1 == i then (if i + 1 < |ns| then ns[i + 1] else null)
                             else if k + 1 < |ns| then ns[k + 1] else null
    requires forall k {:trigger ns[k].prev} :: 0 < k < |ns| && k != i && k - 1 != i ==> ns[k].prev == ns[k - 1]
    requires 0 < i < |ns| - 1 ==> ns[i + 1].prev == ns[i - 1]
    ensures Strung(home, b, Without(ns, i)) && Backed(Without(ns, i))
  {
    var t := Without(ns, i);
    forall k {:trigger t[k].home} | 0 <= k < |t|
      ensures t[k].home == home && t[k].bucket == b
      ensures t[k].next == if k + 1 < |t| then t[k + 1] else null
      ensures k > 0 ==> t[k].prev == t[k - 1]
    {
      assert t[k] == ns[if k < i then k else k + 1];
    }
  }

  // A chain and what follows its first node.
  lemma Tail(home: array?<Node?>, b: nat, ns: seq<Node>)
    requires Strung(home, b, ns) && ns != []
    ensures Strung(home, b, ns[1..]) && ns[0].next == Head(ns[1..]) && ns[0] !in ns[1..]
    ensures ns[0].home == home && ns[0].bucket == b
  {
    var t := ns[1..];
    assert ns[0].home == home;
    forall i {:trigger t[i].home} | 0 <= i < |t| ensures t[i].home == home && t[i].bucket == b {
      assert t[i] == ns[i + 1] && ns[i + 1].home == home;
    }
    forall i {:trigger t[i].next} | 0 <= i < |t| ensures t[i].next == if i + 1 < |t| then t[i + 1] else null {
      assert t[i] == ns[i + 1];
    }
  }

  // ---------------------------------------------------------------------------
  // The map
  // ---------------------------------------------------------------------------

  const COUNTER := 0x1_0000  // `used` has 16 bits

  // struct hashmap_t
  class Map {
    const rs: string -> nat    // the hash behind hashcode_index
    const code: string -> nat  // hashcode_create
    var size: nat
    var used: nat
    var idx: nat
    var data: array<Node?>

    ghost var chains: Chains
    ghost var nodes: set<Node>  // every node ever linked

    ghost predicate Bucket(b: nat)
      requires b < |chains|
      reads `data, `chains, data, chains[b]`home, chains[b]`bucket, chains[b]`next, chains[b]`prev
    {
      && b < data.Length && data[b] == Head(chains[b])
      && Strung(data, b, chains[b]) && Backed(chains[b])
    }

    ghost predicate Buckets()
      reads `data, `chains, `nodes, data, nodes`home, nodes`bucket, nodes`next, nodes`prev
    {
      && |chains| == data.Length
      && (forall b :: 0 <= b < |chains| ==> Known(chains[b], nodes))
      && forall b :: 0 <= b < |chains| ==> Bucket(b)
    }

    // The first nodes of all buckets point back to what `prevs` says.
    ghost predicate HeadsKept(prevs: map<Node, Node?>)
      reads `chains, `nodes, nodes`prev
    {
      forall c {:trigger chains[c]} :: 0 <= c < |chains| && chains[c] != [] ==>
        chains[c][0] in nodes && chains[c][0] in prevs && chains[c][0].prev == prevs[chains[c][0]]
    }

    // Every prev pointer is null or a node that was linked once.
    ghost predicate Closed()
      reads `nodes, nodes`prev
    {
      forall n :: n in nodes ==> n.prev == null || n.prev in nodes
    }

    // Nodes of other places are not in a bucket, and its first node is in no other.
    lemma Apart(elm: Node, b: nat)
      requires Buckets() && elm.home != data && b < |chains|
      ensures forall c {:trigger chains[c]} :: 0 <= c < |chains| ==> elm !in chains[c]
      ensures forall c {:trigger chains[c]} :: 0 <= c < |chains| && c != b && data[b] != null ==> data[b] !in chains[c]
    {
      hide Strung, Backed;
      assert Bucket(b);
      if chains[b] != [] {
        Tail(data, b, chains[b]);
      }
      forall c | 0 <= c < |chains|
        ensures elm !in chains[c] && (c != b && data[b] != null ==> data[b] !in chains[c])
      {
        assert Bucket(c);
        NotThere(data, c, chains[c], elm);
        if c != b && data[b] != null {
          NotThere(data, c, chains[c], data[b]);
        }
      }
    }

    // The assignments of hashmap_link.
    method SetPointers(elm: Node, b: nat)
      requires b < data.Length && b < |chains| && elm in nodes
      requires data[b] != null ==> data[b] in nodes && data[b] != elm
      modifies data, elm`next, elm`home, elm`bucket, nodes`prev
      ensures data[b] == elm && forall c :: 0 <= c < data.Length && c != b ==> data[c] == old(data[c])
      ensures elm.next == old(data[b]) && elm.home == data && elm.bucket == b
      ensures forall n :: n in nodes ==> n.prev == if n == old(data[b]) then elm else old(n.prev)
    {
      var etr := data[b];
      elm.next := etr;
      if etr != null {
        etr.prev := elm;
      }
      data[b] := elm;
      elm.home, elm.bucket := data, b;
    }

    // hashmap_link. `prev` of the linked node stays as it is.
    method Link(elm: Node, ghost prevs: map<Node, Node?>)
      requires Buckets() && size == data.Length > 0 && elm in nodes && elm.home != data
      requires HeadsKept(prevs) && elm in prevs && elm.prev == prevs[elm] && Closed()
      modifies `used, `chains, data, elm`next, elm`home, elm`bucket, nodes`prev
      ensures Buckets() && chains == LinkOne(rs, old(chains), elm)
      ensures used == (old(used) + 1) % COUNTER && elm.home == data
      ensures HeadsKept(prevs) && Closed() && forall n :: n in nodes && old(n.home) != data ==> n.prev == old(n.prev)
    {
      hide Strung, Backed, Home;
      var b := Home(rs, elm.key, size);
      ghost var ns, was := chains[b], chains;
      assert Bucket(b);
      Apart(elm, b);
      if ns != [] {
        Tail(data, b, ns);
      }
      SetPointers(elm, b);
      used := (used + 1) % COUNTER;
      chains := LinkOne(rs, chains, elm);
      forall c | 0 <= c < |chains| ensures Bucket(c) {
        if c == b {
          Push(data, b, ns, elm);
        } else {
          assert chains[c] == was[c] && old(Bucket(c));
        }
      }
    }

    ghost predicate Counted()
      reads `used, `chains
    {
      used == |Flatten(chains)| % COUNTER
    }

    lemma Sizes()
      requires Buckets()
      ensures |chains| == data.Length
    {
    }

    // The nodes that still hang in the array `was` point back to what `prevs` says.
    ghost predicate Waiting(was: array<Node?>, prevs: map<Node, Node?>)
      reads `nodes, nodes`home, nodes`prev
    {
      forall n :: n in nodes ==> n in prevs && (n.home == was ==> n.prev == prevs[n])
    }

    // The inner loop of hashmap_grow: move one chain of the old array over.
    method MoveChain(h: Node?, ghost was: array<Node?>, ghost c: nat, ghost ns: seq<Node>,
                     ghost prevs: map<Node, Node?>)
      requires Buckets() && size == data.Length > 0 && was != data
      requires Strung(was, c, ns) && Known(ns, nodes) && h == Head(ns)
      requires HeadsKept(prevs) && Waiting(was, prevs) && Counted() && Closed()
      modifies `used, `chains, data, ns`next, ns`home, ns`bucket, nodes`prev
      ensures Buckets() && chains == LinkAll(rs, old(chains), ns) && Counted()
      ensures HeadsKept(prevs) && Waiting(was, prevs) && Closed()
    {
      hide Strung, Buckets, LinkOne, HeadsKept, Closed;
      Sizes();
      var ht := h;
      ghost var rest, start := ns, chains;
      while ht != null
        invariant Buckets() && Strung(was, c, rest) && ht == Head(rest) && Known(rest, nodes)
        invariant forall n :: n in rest ==> n in ns
        invariant |chains| == |start| && LinkAll(rs, chains, rest) == LinkAll(rs, start, ns)
        invariant HeadsKept(prevs) && Waiting(was, prevs) && Counted() && Closed()
        decreases rest
      {
        Tail(was, c, rest);
        assert ht == rest[0] && ht in rest;
        LinkCounts(rs, chains, ht);
        var next := ht.next;
        Link(ht, prevs);
        rest := rest[1..];
        ht := next;
      }
    }

    ghost function Prevs(): map<Node, Node?>
      reads `nodes, nodes`prev
    {
      map n | n in nodes :: n.prev
    }

    // The chains `was` from `j` on, as they hang in the array `h`.
    ghost predicate Remaining(h: array<Node?>, was: Chains, j: nat)
      reads `nodes, h, nodes`home, nodes`bucket, nodes`next
    {
      && |was| == h.Length
      && (forall b :: j <= b < |was| ==> Known(was[b], nodes))
      && forall b :: j <= b < |was| ==> h[b] == Head(was[b]) && Strung(h, b, was[b])
    }

    lemma NotAhead(h: array<Node?>, was: Chains, j: nat)
      requires j < |was| && Remaining(h, was, j)
      ensures forall b, n :: j < b < |was| && n in was[j] ==> n !in was[b]
    {
      hide Strung;
      forall b, n | j < b < |was| && n in was[j] ensures n !in was[b] {
        Member(h, j, was[j]);
        NotThere(h, b, was[b], n);
      }
    }

    // The empty bucket array of hashmap_size.
    method Resize(n: nat)
      requires n > 0
      modifies `size, `used, `data, `chains
      ensures Buckets() && Counted() && size == data.Length == n && fresh(data) && chains == Empty(n)
    {
      data := new Node?[n](_ => null);
      size, used, chains := n, 0, Empty(n);
      EmptyFlat(n);
    }

    // One round of the outer loop of hashmap_grow.
    method MoveNext(h: array<Node?>, j: nat, ghost was: Chains, ghost prevs: map<Node, Node?>)
      requires Buckets() && Counted() && size == data.Length > 0 && h != data
      requires HeadsKept(prevs) && Closed() && Waiting(h, prevs)
      requires Remaining(h, was, j) && j < |was|
      modifies `used, `chains, data, nodes`next, nodes`home, nodes`bucket, nodes`prev
      ensures Buckets() && Counted() && chains == LinkAll(rs, old(chains), was[j])
      ensures HeadsKept(prevs) && Closed() && Waiting(h, prevs)
      ensures Remaining(h, was, j + 1)
    {
      hide Strung, Head, Buckets, HeadsKept, Closed, Waiting, Home, LinkAll;
      NotAhead(h, was, j);
      MoveChain(h[j], h, j, was[j], prevs);
      forall b | j + 1 <= b < |was| ensures h[b] == Head(was[b]) && Strung(h, b, was[b]) {
        assert old(h[b]) == Head(was[b]) && old(Strung(h, b, was[b]));
        assert forall n :: n in was[b] ==> n !in was[j];
        assert forall n :: n in was[b] ==>
          n.home == old(n.home) && n.bucket == old(n.bucket) && n.next == old(n.next);
      }
    }

    // The outer loop of hashmap_grow, over all chains of the old array.
    method MoveAll(h: array<Node?>, ghost was: Chains, ghost prevs: map<Node, Node?>)
      requires Buckets() && Counted() && size == data.Length > 0 && h != data && chains == Empty(size)
      requires HeadsKept(prevs) && Closed() && Waiting(h, prevs) && Remaining(h, was, 0)
      modifies `used, `chains, data, nodes`next, nodes`home, nodes`bucket, nodes`prev
      ensures Buckets() && Counted() && chains == Grown(rs, was, size) && HeadsKept(prevs) && Closed()
    {
      hide Buckets, HeadsKept, Closed, Waiting, LinkAll, Counted;
      Nothing(was);
      var j := 0;
      while j < h.Length
        invariant j <= |was| && Buckets() && Counted() && HeadsKept(prevs) && Closed() && Waiting(h, prevs)
        invariant chains == LinkAll(rs, Empty(size), Flatten(was[..j]))
        invariant Remaining(h, was, j)
      {
        MoveNext(h, j, was, prevs);
        LinkAllConcat(rs, Empty(size), Flatten(was[..j]), was[j]);
        FlattenStep(was, j);
        j := j + 1;
      }
      DropAll(was);
    }

    lemma Nothing(was: Chains)
      requires size > 0
      ensures LinkAll(rs, Empty(size), Flatten(was[..0])) == Empty(size)
    {
    }

    lemma AllRemain()
      requires Buckets()
      ensures Remaining(data, chains, 0) && HeadsKept(Prevs())
    {
      hide Strung;
      forall b | 0 <= b < |chains| ensures data[b] == Head(chains[b]) && Strung(data, b, chains[b]) {
        assert Bucket(b);
      }
    }

    // No bucket's first node points back to anything.
    ghost predicate Settled()
      reads `chains, `nodes, nodes`prev
    {
      forall c {:trigger chains[c]} :: 0 <= c < |chains| && chains[c] != [] ==>
        chains[c][0] in nodes && chains[c][0].prev == null
    }

    // In a settled map the first nodes, and only they, point back to nothing.
    lemma PrevsTell()
      requires Buckets() && Settled()
      ensures forall n :: n in Flatten(chains) ==> n in nodes && (n.prev == null <==> First(chains, n))
    {
      hide Strung;
      forall n | n in Flatten(chains) ensures n in nodes && (n.prev == null <==> First(chains, n)) {
        FlattenMember(chains, n);
        var b :| 0 <= b < |chains| && n in chains[b];
        assert Known(chains[b], nodes) && Bucket(b);
        var i :| 0 <= i < |chains[b]| && chains[b][i] == n;
        OtherBuckets(b);
        if i > 0 {
          assert n.prev == chains[b][i - 1];
          Tail(data, b, chains[b]);
          assert n == chains[b][1..][i - 1];
        }
      }
    }

    lemma OtherBuckets(b: nat)
      requires Buckets() && b < |chains|
      ensures forall c, n :: 0 <= c < |chains| && c != b && n in chains[b] ==> n !in chains[c]
    {
      hide Strung, Backed;
      assert Bucket(b);
      forall c, n | 0 <= c < |chains| && c != b && n in chains[b] ensures n !in chains[c] {
        assert Bucket(c);
        Member(data, b, chains[b]);
        NotThere(data, c, chains[c], n);
      }
    }

    // hashmap_grow, on a map whose table is not exhausted. After growth of a settled
    // map the entries that point back to something are those that head a bucket now
    // and did not before.
    method Grow()
      requires Buckets() && Closed() && idx + 1 < |Primes()|
      modifies `size, `used, `idx, `data, `chains, nodes`next, nodes`home, nodes`bucket, nodes`prev
      ensures Buckets() && Closed() && Counted() && fresh(data) && size == data.Length > 0
      ensures idx == old(idx) + 1 && size == Primes()[idx]
      ensures chains == Grown(rs, old(chains), size) && HeadsKept(old(Prevs()))
      ensures old(Settled()) ==> forall c :: 0 <= c < |chains| && chains[c] != [] ==>
                (chains[c][0].prev == null <==> First(old(chains), chains[c][0]))
    {
      hide Buckets, Closed, Primes, Grown, First, Settled, HeadsKept, FirstsKnown;
      PrimesAscend();
      ghost var was, prevs, settled := chains, Prevs(), Settled();
      if settled {
        PrevsKnown();
      }
      GrownConserves(rs, was, Primes()[idx + 1]);
      Rehash();
      if settled {
        HeadsTell(was, prevs);
      }
    }

    // The body of hashmap_grow.
    method Rehash()
      requires Buckets() && Closed() && idx + 1 < |Primes()|
      modifies `size, `used, `idx, `data, `chains, nodes`next, nodes`home, nodes`bucket, nodes`prev
      ensures Buckets() && Closed() && Counted() && fresh(data) && size == data.Length > 0
      ensures idx == old(idx) + 1 && size == Primes()[idx]
      ensures chains == Grown(rs, old(chains), size) && HeadsKept(old(Prevs()))
    {
      hide Buckets, Remaining, Closed, Primes, Grown;
      PrimesAscend();
      ghost var was, prevs := chains, Prevs();
      var h := data;
      AllRemain();
      idx := idx + 1;
      Resize(Primes()[idx]);
      MoveAll(h, was, prevs);
    }

    lemma PrevsKnown()
      requires Buckets() && Settled()
      ensures FirstsKnown(chains, Prevs())
    {
      PrevsTell();
    }

    // The same of the first nodes after growth, which were in the buckets before.
    lemma HeadsTell(was: Chains, prevs: map<Node, Node?>)
      requires HeadsKept(prevs) && multiset(Flatten(chains)) == multiset(Flatten(was))
      requires FirstsKnown(was, prevs)
      ensures forall c :: 0 <= c < |chains| && chains[c] != [] ==>
                (chains[c][0].prev == null <==> First(was, chains[c][0]))
    {
      hide First;
      forall c | 0 <= c < |chains| && chains[c] != []
        ensures chains[c][0].prev == null <==> First(was, chains[c][0])
      {
        MemberFlatten(chains, c, chains[c][0]);
        assert chains[c][0] in multiset(Flatten(chains));
        assert chains[c][0] in Flatten(was);
      }
    }

    // ---------------------------------------------------------------------------
    // Operations
    // ---------------------------------------------------------------------------

    ghost predicate Coded()
      reads `nodes
    {
      forall n :: n in nodes ==> n.hashCode == code(n.key)
    }

    // No more entries than buckets, as long as the counter can count them.
    ghost predicate Roomy()
      reads `size, `used, `idx, `chains
    {
      && idx < |Primes()| && (size == 0 || size == Primes()[idx])
      && used <= size && (|Flatten(chains)| <= size || size >= COUNTER)
    }

    ghost predicate Valid()
      reads `size, `used, `idx, `data, `chains, `nodes, data,
            nodes`home, nodes`bucket, nodes`next, nodes`prev
    {
      && Buckets() && Counted() && size == data.Length && Homed(rs, chains)
      && Closed() && Coded() && Roomy()
    }

    constructor (rs: string -> nat, code: string -> nat, idx: nat)
      requires idx < |Primes()|
      ensures Valid() && Settled() && size == used == 0 && this.idx == idx && chains == [] && nodes == {} && fresh(data)
      ensures this.rs == rs && this.code == code
    {
      this.rs, this.code, this.idx := rs, code, idx;
      size, used, chains, nodes := 0, 0, [], {};
      data := new Node?[0];
    }

    // hashmap_create: the first prime above the wanted size, compared as unsigned.
    static method Create(wanted: int, rs: string -> nat, code: string -> nat) returns (m: Map?)
      requires -0x8000_0000 <= wanted < 0x8000_0000
      ensures m == null <==> wanted < 0 || wanted >= 7199369
      ensures m != null ==> fresh(m) && fresh(m.data) && m.nodes == {} && m.size == m.used == 0
      ensures m != null ==> m.Valid() && m.Settled() && m.chains == [] && m.rs == rs && m.code == code
      ensures m != null ==> wanted < Primes()[m.idx] && forall i :: 0 <= i < m.idx ==> Primes()[i] <= wanted
    {
      hide Primes;
      PrimesAscend();
      var size := if wanted < 0 then wanted + 0x1_0000_0000 else wanted;
      var idx := 0;
      while idx < |Primes()| && size >= Primes()[idx]
        invariant idx <= |Primes()| && forall i :: 0 <= i < idx ==> Primes()[i] <= size
      {
        idx := idx + 1;
      }
      if idx >= |Primes()| {
        assert Primes()[71] <= size;
        return null;
      }
      assert size < Primes()[idx] <= 7199369;
      m := new Map(rs, code, idx);
    }

    // The loop of hashmap_find and hashmap_locate: the first node of the chain whose
    // length, code and bytes are those of the key.
    method Locate(key: string) returns (ht: Node?)
      requires Valid() && size > 0
      ensures ht == match Lookup(chains, rs, key) case None => null case Some(n) => n
    {
      hide Strung, Home;
      var b := Home(rs, key, size);
      var hc := code(key);
      ht := data[b];
      assert Bucket(b);
      ghost var rest := chains[b];
      while ht != null
        invariant ht == Head(rest) && Strung(data, b, rest) && Known(rest, nodes)
        invariant Matches(chains[b], key) == Matches(rest, key)
        decreases rest
      {
        Tail(data, b, rest);
        if |key| == |ht.key| && hc == ht.hashCode && key == ht.key {
          return;
        }
        NilLeft(Matches(rest[1..], key));
        rest := rest[1..];
        ht := ht.next;
      }
    }

    // What growth does to lookups of a valid map.
    lemma GrowthAndLookup(key: string, size': nat)
      requires Valid() && size > 0 && size' > 0
      ensures Lookup(Grown(rs, chains, size'), rs, key) == Lookup(chains, rs, key) <==> |Found(chains, rs, key)| <= 1
    {
      hide Home, Grown, Found, Strung;
      forall b | 0 <= b < |chains| ensures Distinct(chains[b]) {
        assert Bucket(b);
        Member(data, b, chains[b]);
      }
      forall b, c, n | 0 <= b < c < |chains| && n in chains[b] ensures n !in chains[c] {
        OtherBuckets(b);
      }
      FlattenDistinct(chains);
      GrownLookup(rs, chains, size', key);
    }

    // hashmap_find
    method Find(key: string) returns (r: Option<string>)
      requires Valid() && size > 0
      ensures r == match Lookup(chains, rs, key) case None => None case Some(n) => n.value
    {
      var ht := Locate(key);
      r := if ht == null then None else ht.value;
    }

    // Room for one more entry, by growth if need be.
    method MakeRoom()
      requires Valid() && (size == 0 ==> idx + 1 < |Primes()|)
      modifies `size, `used, `idx, `data, `chains, nodes`next, nodes`home, nodes`bucket, nodes`prev
      ensures size > 0 && idx < |Primes()| && size == Primes()[idx] && used < size
      ensures Buckets() && Closed() && Counted() && size == data.Length && Homed(rs, chains) && HeadsKept(old(Prevs()))
      ensures if old(used) < old(size) then
                && chains == old(chains) && data == old(data) && size == old(size) && idx == old(idx)
                && (forall n :: n in nodes ==> n.prev == old(n.prev))
              else fresh(data) && idx == old(idx) + 1 && chains == Grown(rs, old(chains), size)
      ensures old(used) >= old(size) && old(Settled()) ==> forall c :: 0 <= c < |chains| && chains[c] != [] ==>
                (chains[c][0].prev == null <==> First(old(chains), chains[c][0]))
      ensures |Flatten(chains)| < size || size >= COUNTER
    {
      hide Primes, Buckets, Strung;
      PrimesAscend();
      AllRemain();
      if used >= size {
        Enough();
        GrownConserves(rs, chains, Primes()[idx + 1]);
        Grow();
      }
    }

    // The table cannot run out before the counter does.
    lemma Enough()
      requires Roomy() && Counted() && used >= size && (size == 0 ==> idx + 1 < |Primes()|)
      ensures idx + 1 < |Primes()| && size < Primes()[idx + 1] && |Flatten(chains)| == size < COUNTER
    {
      hide Primes;
      PrimesAscend();
    }

    // The chains an insertion starts from: those of a grown table if it is full.
    ghost function Prepared(): Chains
      reads `size, `used, `idx, `chains
    {
      if used < size || idx + 1 >= |Primes()| then chains
      else PrimesAscend(); Grown(rs, chains, Primes()[idx + 1])
    }

    ghost method Join(ht: Node, prevs: map<Node, Node?>)
      requires Buckets() && HeadsKept(prevs) && ht !in nodes
      modifies `nodes
      ensures Buckets() && HeadsKept(prevs[ht := null]) && nodes == old(nodes) + {ht}
    {
      hide Strung;
      forall b | 0 <= b < |chains| ensures Bucket(b) && Known(chains[b], nodes + {ht}) {
        assert Bucket(b);
      }
      nodes := nodes + {ht};
    }

    // Linking a new entry into a map with room for it.
    method Enter(ht: Node, ghost prevs: map<Node, Node?>)
      requires Buckets() && Closed() && Counted() && size == data.Length > 0 && Homed(rs, chains) && Coded()
      requires idx < |Primes()| && size == Primes()[idx] && used < size
      requires |Flatten(chains)| < size || size >= COUNTER
      requires HeadsKept(prevs) && (forall n :: n in nodes ==> n in prevs)
      requires ht !in nodes && ht.home == null && ht.prev == null && ht.hashCode == code(ht.key)
      modifies `used, `chains, `nodes, data, ht`next, ht`home, ht`bucket, ht`prev, nodes`prev
      ensures Valid() && 0 < size && nodes == old(nodes) + {ht} && |Flatten(chains)| == |Flatten(old(chains))| + 1
      ensures chains == LinkOne(rs, old(chains), ht) && HeadsKept(prevs[ht := null]) && ht.prev == null
    {
      hide Primes, Buckets, Strung, Home, Homed, HeadsKept, LinkOne;
      Sizes();
      Join(ht, prevs);
      LinkHomed(rs, chains, ht);
      LinkCounts(rs, chains, ht);
      CountOne(used, |Flatten(chains)|, size);
      Link(ht, prevs[ht := null]);
      assert Coded() && Roomy();
    }

    lemma SettledByPrevs(prevs: map<Node, Node?>)
      requires HeadsKept(prevs)
      ensures Settled() <==> Unheaded(prevs)
    {
    }

    // Going by `prevs`, no bucket's first node points back to anything.
    ghost predicate Unheaded(prevs: map<Node, Node?>)
      reads `chains
    {
      forall c :: 0 <= c < |chains| && chains[c] != [] ==> chains[c][0] in prevs && prevs[chains[c][0]] == null
    }

    // What the first nodes of a map with room pointed back to before it made room.
    lemma FirstsBefore(prevs: map<Node, Node?>, was: Chains, roomy: bool)
      requires HeadsKept(prevs)
      requires if roomy then Unheaded(prevs) else
                 forall c :: 0 <= c < |chains| && chains[c] != [] ==>
                   (chains[c][0].prev == null <==> First(was, chains[c][0]))
      ensures FirstsTell(chains, prevs, was, roomy)
    {
      hide First;
    }

    // The first nodes after an insertion into `prepared`.
    lemma NewHeads(was: Chains, prepared: Chains, ht: Node, prevs: map<Node, Node?>, roomy: bool)
      requires prepared != [] && chains == LinkOne(rs, prepared, ht) && ht !in prevs
      requires FirstsTell(prepared, prevs, was, roomy)
      ensures Unheaded(prevs[ht := null]) <==> roomy || HeadsStay(was, prepared, Home(rs, ht.key, |prepared|))
    {
      hide First, Home;
      var b := Home(rs, ht.key, |prepared|);
      forall c | 0 <= c < |chains| && chains[c] != []
        ensures chains[c][0] in prevs[ht := null]
        ensures prevs[ht := null][chains[c][0]] == null <==> c == b || roomy || First(was, prepared[c][0])
      {
        assert c != b ==> chains[c] == prepared[c];
      }
      if Unheaded(prevs[ht := null]) {
        forall c | 0 <= c < |prepared| && c != b && prepared[c] != [] ensures roomy || First(was, prepared[c][0]) {
          assert chains[c] == prepared[c];
        }
      }
    }

    lemma GrownCounts(was: Chains, roomy: bool)
      requires if roomy then chains == was else size > 0 && chains == Grown(rs, was, size)
      ensures |Flatten(chains)| == |Flatten(was)|
    {
      if !roomy {
        GrownConserves(rs, was, size);
      }
    }

    // hashmap_insert. For an absent key it inserts into the map. A settled map stays
    // settled unless it grows, and then exactly if every new first node but the new
    // entry's own bucket's was first before.
    method Insert(key: string, value: Option<string>) returns (ht: Node)
      requires Valid() && (size == 0 ==> idx + 1 < |Primes()|)
      modifies `size, `used, `idx, `data, `chains, `nodes, data,
               nodes`next, nodes`home, nodes`bucket, nodes`prev
      ensures Valid() && used <= size && 0 < size
      ensures fresh(ht) && ht.key == key && ht.value == value && nodes == old(nodes) + {ht}
      ensures if old(used) < old(size) then data == old(data) && size == old(size) && idx == old(idx)
              else fresh(data) && idx == old(idx) + 1 && size == Primes()[idx]
      ensures |Flatten(chains)| == |Flatten(old(chains))| + 1
      ensures old(Prepared()) != [] && chains == LinkOne(rs, old(Prepared()), ht)
      ensures HeadsKept(old(Prevs())[ht := null])
      ensures forall m :: Stands(rs, old(chains), m) && key !in m ==> Stands(rs, chains, m[key := value])
      ensures old(Settled()) ==>
                (Settled() <==> old(used) < old(size) || HeadsStay(old(chains), old(Prepared()), Home(rs, key, size)))
    {
      hide Primes, Buckets, Strung, Home, Homed, HeadsKept, LinkOne, Stands, Grown, Closed, First, Settled;
      hide HeadsStay, Unheaded, FirstsTell;
      PrimesAscend();
      ghost var prevs, was, settled, roomy := Prevs(), chains, Settled(), used < size;
      if settled {
        AllRemain();
        SettledByPrevs(prevs);
      }
      MakeRoom();
      Sizes();
      ghost var prepared := chains;
      if settled {
        FirstsBefore(prevs, was, roomy);
      }
      GrownCounts(was, roomy);
      ht := new Node(key, code(key), value);
      Enter(ht, prevs);
      if settled {
        SettledByPrevs(prevs[ht := null]);
        NewHeads(was, prepared, ht, prevs, roomy);
      }
      forall m | Stands(rs, was, m) && key !in m ensures Stands(rs, chains, m[key := value]) {
        if prepared != was {
          GrowthStands(rs, was, m, |prepared|);
        }
        InsertStands(rs, prepared, m, ht);
      }
    }

    // In a settled map nothing is stale.
    lemma SettledIsNotStale(key: string)
      requires Valid() && size > 0 && Settled()
      ensures !Stale(key)
    {
      hide Home, Strung;
      if Lookup(chains, rs, key).Some? {
        StaleMeans(key);
        assert chains[Home(rs, key, size)] != [];
      }
    }

    // What deletion does to a first node that points back to `p`: the node stays where
    // it is, `p` is followed by what followed the node, and nothing else changes.
    twostate predicate LeftBehind(ht: Node)
      reads `nodes, nodes`next, nodes`prev
    {
      var p, x := old(ht.prev), old(ht.next);
      && p != null && p in nodes && p.next == x
      && (x != null ==> x in nodes && x.prev == p)
      && (forall n :: n in nodes && n != p ==> n in old(nodes) && n.next == old(n.next))
      && (forall n :: n in nodes && n != x ==> n in old(nodes) && n.prev == old(n.prev))
    }

    // The assignments of hashmap_delete.
    method Relink(ht: Node, b: nat)
      requires b < data.Length
      modifies data, ht`home
      modifies (if ht.next == null then {} else {ht.next})`prev, (if ht.prev == null then {} else {ht.prev})`next
      ensures ht.home == null
      ensures old(ht.prev) != null ==> old(ht.prev).next == old(ht.next)
      ensures old(ht.next) != null ==> old(ht.next).prev == old(ht.prev)
      ensures data[b] == if old(ht.prev) == null then old(ht.next) else old(data[b])
      ensures forall c :: 0 <= c < data.Length && c != b ==> data[c] == old(data[c])
    {
      if ht.next != null {
        ht.next.prev := ht.prev;
      }
      if ht.prev != null {
        ht.prev.next := ht.next;
      } else {
        data[b] := ht.next;
      }
      ht.home := null;
    }

    // What they do to a chain. A first node that points back to something stays where
    // it is.
    method Unhook(ht: Node, b: nat, ghost i: nat)
      requires b < data.Length && b < |chains| && i < |chains[b]| && ht == chains[b][i]
      requires data[b] == Head(chains[b]) && Strung(data, b, chains[b]) && Backed(chains[b])
      modifies data, chains[b]`next, chains[b]`prev, ht`home, (if ht.prev == null then {} else {ht.prev})`next
      ensures i > 0 || old(ht.prev) == null ==>
                var t := Without(chains[b], i);
                && data[b] == Head(t) && Strung(data, b, t) && Backed(t)
                && (t != [] ==> t[0].prev == if i == 0 then null else old(t[0].prev))
      ensures i == 0 && old(ht.prev) != null ==>
                data[b] == old(data[b]) && (Known(chains[b], nodes) && old(ht.prev) in nodes ==> LeftBehind(ht))
      ensures forall c :: 0 <= c < data.Length && c != b ==> data[c] == old(data[c])
      ensures ht.home == null && forall n :: n in chains[b] ==> n.prev == old(n.prev) || n.prev == old(ht.prev)
    {
      ghost var ns, clean := chains[b], i > 0 || ht.prev == null;
      assert i > 0 ==> ht.prev == ns[i - 1];
      assert ht.next == if i + 1 < |ns| then ns[i + 1] else null;
      Relink(ht, b);
      if clean {
        forall k | 0 <= k < |ns| && k != i ensures ns[k].home == data && ns[k].bucket == b {
          assert old(ns[k].home) == data;
        }
        LedAround(data, b, ns, i);
      }
    }

    // Taking a node out of its chain, unless it is first and points back to something.
    method Remove(ht: Node, b: nat, ghost i: nat)
      requires Buckets() && Closed() && b < data.Length && i < |chains[b]| && ht == chains[b][i]
      modifies `chains, data, nodes`next, nodes`prev, ht`home
      ensures if i == 0 && old(ht.prev) != null then
                chains == old(chains) && data[b] == old(data[b]) && LeftBehind(ht)
              else
                && Buckets() && Closed() && chains == old(chains)[b := Without(old(chains)[b], i)]
                && (old(Settled()) ==> Settled())
    {
      hide Strung, Backed, Without;
      assert Bucket(b);
      OtherBuckets(b);
      BackTo(chains[b], i);
      ghost var was, clean := chains, i > 0 || ht.prev == null;
      Unhook(ht, b, i);
      if clean {
        chains := chains[b := Without(chains[b], i)];
        WithoutKnown(was[b], i, nodes);
        forall c | 0 <= c < |chains|
          ensures Bucket(c) && Known(chains[c], nodes)
          ensures var x := chains[c]; x != [] ==> x[0].prev == if c == b && i == 0 then null else old(x[0].prev)
        {
          if c != b {
            assert old(Bucket(c)) && chains[c] == was[c];
            assert forall n :: n in was[c] ==> n !in was[b];
            assert forall n: Node :: n in was[c] ==>
              n.home == old(n.home) && n.bucket == old(n.bucket) && n.next == old(n.next) && n.prev == old(n.prev);
            assert Strung(data, c, was[c]) && Backed(was[c]) && data[c] == Head(was[c]);
          } else {
            assert chains[c] == Without(was[b], i);
          }
        }
      }
    }

    // The entry of `key` is first in its bucket and still points back to something.
    ghost predicate Stale(key: string)
      requires data.Length == |chains| > 0
      reads `data, `chains, data, nodes`prev, `nodes
    {
      match Lookup(chains, rs, key)
      case None => false
      case Some(n) => data[Home(rs, key, |chains|)] == n && n in nodes && n.prev != null
    }

    lemma StaleMeans(key: string)
      requires Buckets() && data.Length > 0 && Lookup(chains, rs, key).Some?
      ensures var ns := chains[Home(rs, key, |chains|)];
              var i := FirstMatch(ns, key);
              && i < |ns| && (Stale(key) <==> i == 0 && ns[i].prev != null)
              && (i == 0 ==> data[Home(rs, key, |chains|)] == ns[i])
    {
      hide Home, Matches, Backed;
      var b := Home(rs, key, |chains|);
      assert Bucket(b);
      MatchesAt(chains[b], key);
    }

    // After a stale deletion a walk along the chain, as for an absent key, never ends
    // exactly if the node pointed back to follows the deleted one: the chain is closed
    // to a ring then, and as it was otherwise.
    twostate lemma WalkEnds(b: nat)
      requires b < |old(chains)| && old(chains)[b] != [] && nodes == old(nodes)
      requires old(Bucket(b)) && old(Known(chains[b], nodes)) && LeftBehind(old(chains)[b][0])
      ensures var ns := old(chains)[b];
              (forall k :: Walk(ns, ns[0], k) != null) <==> old(ns[0].prev) in ns[1..]
    {
      var ns := old(chains)[b];
      var p := old(ns[0].prev);
      assert old(Strung(data, b, ns));
      forall h {:trigger ns[h].next} | 0 <= h < |ns|
        ensures ns[h].next == if ns[h] == p then old(ns[0].next) else if h + 1 < |ns| then ns[h + 1] else null
      {
        assert old(ns[h].next) == (if h + 1 < |ns| then ns[h + 1] else null) && ns[h] in ns;
      }
      if p in ns[1..] {
        var j :| 0 <= j < |ns[1..]| && ns[1..][j] == p;
        assert ns[j + 1] == p;
        assert ns[j + 1].next == ns[1];
        forall k ensures Walk(ns, ns[0], k) != null {
          RoundAndRound(ns, 0, j + 1, k);
        }
      } else {
        assert forall h :: 0 < h < |ns| ==> ns[h] == ns[1..][h - 1];
        WalkToEnd(ns, 0);
      }
    }

    // The part of hashmap_delete behind the search. It takes the entry out unless the
    // entry is stale; then it remains the first of its bucket.
    method DeleteFound(ht: Node, key: string)
      requires Valid() && size > 0 && Lookup(chains, rs, key) == Some(ht)
      modifies `used, `chains, data, nodes`next, nodes`prev, ht`home
      ensures used == if old(used) == 0 then COUNTER - 1 else old(used) - 1
      ensures if old(Stale(key)) then data[Home(rs, key, size)] == ht && chains == old(chains) && LeftBehind(ht)
              else Valid() && chains == Unlinked(rs, old(chains), key) && (old(Settled()) ==> Settled())
    {
      hide Strung, Backed, Home, Homed, Bucket, Without, Stale, Settled, Closed, FirstMatch, Matches, Primes;
      UnlinkedConserves(rs, chains, key);
      UnlinkedHomed(rs, chains, key);
      StaleMeans(key);
      UncountOne(used, |Flatten(chains)|, size);
      var b := Home(rs, key, size);
      Remove(ht, b, FirstMatch(chains[b], key));
      used := (used + (COUNTER - 1)) % COUNTER;
    }

    // hashmap_delete
    method Delete(key: string) returns (r: int)
      requires Valid() && size > 0
      modifies `used, `chains, data, nodes`next, nodes`prev, nodes`home
      ensures r == if Lookup(old(chains), rs, key).Some? then 0 else 1
      ensures r == 1 ==> Valid() && chains == old(chains) && used == old(used)
      ensures r == 0 ==> used == if old(used) == 0 then 65535 else old(used) - 1
      ensures r == 0 && old(Stale(key)) ==>
                var ht := Lookup(old(chains), rs, key).value;
                data[Home(rs, key, size)] == ht && chains == old(chains) && ht in old(nodes) && LeftBehind(ht)
      ensures r == 0 && !old(Stale(key)) ==> Valid() && chains == Unlinked(rs, old(chains), key)
      ensures !old(Stale(key)) && old(Settled()) ==> Settled()
      ensures !old(Stale(key)) ==> forall m :: Stands(rs, old(chains), m) ==> Stands(rs, chains, m - {key})
    {
      hide Stands, Unlinked, Lookup, Buckets, Home, Homed, Settled, Closed, Coded, Roomy, Primes;
      Sizes();
      var ht := Locate(key);
      UnlinkedConserves(rs, chains, key);
      forall m | Stands(rs, chains, m) ensures Stands(rs, Unlinked(rs, chains, key), m - {key}) {
        DeleteStands(rs, chains, m, key);
      }
      if ht == null {
        return 1;
      }
      FoundIsKnown(key);
      DeleteFound(ht, key);
      r := 0;
    }

    lemma FoundIsKnown(key: string)
      requires Buckets() && data.Length > 0 && Lookup(chains, rs, key).Some?
      ensures Lookup(chains, rs, key).value in nodes
    {
      hide Home;
      var b := Home(rs, key, |chains|);
      MatchesAt(chains[b], key);
      assert Known(chains[b], nodes);
    }

    // The inner loop of hashmap_list: one chain behind what is listed already.
    method ListChain(list: array<Node?>, from: nat, b: nat) returns (count: nat)
      requires Buckets() && b < data.Length && list != data && from + |chains[b]| < list.Length
      modifies list
      ensures count == from + |chains[b]| && list[..count] == old(list[..from]) + chains[b]
      ensures forall j :: count <= j < list.Length ==> list[j] == old(list[j])
    {
      hide Strung;
      assert Bucket(b);
      var member := data[b];
      ghost var done, rest := [], chains[b];
      count := from;
      while member != null
        invariant done + rest == chains[b] && member == Head(rest) && Strung(data, b, rest)
        invariant count == from + |done| && list[..count] == old(list[..from]) + done
        invariant forall j :: count <= j < list.Length ==> list[j] == old(list[j])
        decreases rest
      {
        Tail(data, b, rest);
        list[count] := member;
        done, rest := done + [member], rest[1..];
        member, count := member.next, count + 1;
      }
    }

    // hashmap_list: all entries in bucket order, and a null pointer behind them.
    method List() returns (list: array<Node?>)
      requires Valid() && |Flatten(chains)| < COUNTER
      ensures fresh(list) && list[..] == Flatten(chains) + [null]
    {
      hide Buckets, Homed, Closed, Coded, Roomy;
      Sizes();
      list := new Node?[used + 1](_ => null);
      var count, i := 0, 0;
      while i < size
        invariant i <= size && count == |Flatten(chains[..i])| < list.Length && list[..count] == Flatten(chains[..i])
        invariant forall j :: count <= j < list.Length ==> list[j] == null
      {
        FlattenStep(chains, i);
        FlattenShorter(chains, i + 1);
        count := ListChain(list, count, i);
        i := i + 1;
      }
      DropAll(chains);
    }
  }

  // The first nodes, and only they, pointed back to nothing.
  ghost predicate FirstsKnown(was: Chains, prevs: map<Node, Node?>) {
    forall n :: n in Flatten(was) ==> n in prevs && (prevs[n] == null <==> First(was, n))
  }

  // A first node pointed back to nothing exactly if it was first before, or if the
  // buckets are the old ones.
  ghost predicate FirstsTell(ch: Chains, prevs: map<Node, Node?>, was: Chains, roomy: bool) {
    forall c :: 0 <= c < |ch| && ch[c] != [] ==>
      ch[c][0] in prevs && (prevs[ch[c][0]] == null <==> roomy || First(was, ch[c][0]))
  }

  // Following the next pointers k times, within the given nodes.
  ghost function Walk(ns: seq<Node>, n: Node?, k: nat): Node?
    reads ns`next
  {
    if k == 0 || n == null || n !in ns then n else Walk(ns, n.next, k - 1)
  }

  lemma {:induction false} RoundAndRound(ns: seq<Node>, i: nat, j: nat, k: nat)
    requires i <= j < |ns| && 0 < j
    requires forall h {:trigger ns[h].next} :: 0 <= h < j ==> ns[h].next == ns[h + 1]
    requires ns[j].next == ns[1]
    ensures Walk(ns, ns[i], k) != null
    decreases k
  {
    if k > 0 {
      assert ns[i] in ns;
      RoundAndRound(ns, if i < j then i + 1 else 1, j, k - 1);
    }
  }

  // A walk along an intact chain ends.
  lemma {:induction false} WalkToEnd(ns: seq<Node>, i: nat)
    requires i < |ns|
    requires forall h {:trigger ns[h].next} :: 0 <= h < |ns| ==> ns[h].next == if h + 1 < |ns| then ns[h + 1] else null
    ensures Walk(ns, ns[i], |ns| - i) == null
    decreases |ns| - i
  {
    assert ns[i] in ns;
    if i + 1 < |ns| {
      WalkToEnd(ns, i + 1);
    }
  }

  lemma UncountOne(used: nat, total: nat, size: nat)
    requires used == total % COUNTER && total > 0 && used <= size && (total <= size || size >= COUNTER)
    ensures (used + (COUNTER - 1)) % COUNTER == (total - 1) % COUNTER <= size
    ensures (total - 1) % COUNTER == if used == 0 then COUNTER - 1 else used - 1
  {
  }

  lemma BackTo(ns: seq<Node>, i: nat)
    requires Backed(ns) && i < |ns|
    ensures i > 0 ==> ns[i].prev == ns[i - 1]
  {
  }

  lemma WithoutKnown(ns: seq<Node>, i: nat, nodes: set<Node>)
    requires i < |ns| && Known(ns, nodes)
    ensures Known(Without(ns, i), nodes)
    ensures i > 0 ==> Without(ns, i) != [] && Without(ns, i)[0] == ns[0]
  {
  }

  lemma CountOne(used: nat, total: nat, size: nat)
    requires used == total % COUNTER && used < size
    ensures (used + 1) % COUNTER == (total + 1) % COUNTER <= size
  {
  }

  lemma Member(home: array?<Node?>, b: nat, ns: seq<Node>)
    requires Strung(home, b, ns)
    ensures Distinct(ns) && forall n :: n in ns ==> n.home == home && n.bucket == b
  {
    forall n | n in ns ensures n.home == home && n.bucket == b {
      var i :| 0 <= i < |ns| && ns[i] == n;
      assert ns[i].home == home;
    }
  }

  lemma FlattenShorter<T>(s: seq<seq<T>>, j: nat)
    requires j <= |s|
    ensures |Flatten(s[..j])| <= |Flatten(s)|
  {
    assert s == s[..j] + s[j..];
    FlattenConcat(s[..j], s[j..]);
  }

  lemma FlattenStep<T>(s: seq<seq<T>>, j: nat)
    requires j < |s|
    ensures Flatten(s[..j + 1]) == Flatten(s[..j]) + s[j]
  {
    assert s[..j + 1] == s[..j] + [s[j]];
    FlattenConcat(s[..j], [s[j]]);
    NilLeft(s[j]);
    assert Flatten([s[j]]) == s[j];
  }
}
