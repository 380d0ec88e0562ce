// Buckets of a chained hash map as sequences of nodes, and what linking, growing
// and unlinking do to lookups.

module HashChains {
  import opened Bytes

  // struct hashmap_entry_s; key, hash code and value are set once.
  class Node {
    const key: string
    const hashCode: nat
    const value: Option<string>
    var next: Node?
    var prev: Node?
    ghost var home: array?<Node?>  // the bucket array it is linked in,
    ghost var bucket: nat          // and the bucket

    constructor (key: string, hashCode: nat, value: Option<string>)
      ensures this.key == key && this.hashCode == hashCode && this.value == value
      ensures next == null && prev == null && home == null
    {
      this.key, this.hashCode, this.value := key, hashCode, value;
      next, prev, home := null, null, null;
    }
  }

  type Chains = seq<seq<Node>>

  // hashcode_index for any string hash.
  function Home(rs: string -> nat, k: string, size: nat): (b: nat)
    requires size > 0
    ensures b < size
  {
    rs(k) % size
  }

  predicate Homed(rs: string -> nat, ch: Chains) {
    forall b :: 0 <= b < |ch| ==> InHome(rs, ch[b], b, |ch|)
  }

  predicate InHome(rs: string -> nat, ns: seq<Node>, b: nat, size: nat)
    requires size > 0
  {
    forall i :: 0 <= i < |ns| ==> Home(rs, ns[i].key, size) == b
  }

  function Empty(size: nat): (ch: Chains)
    ensures |ch| == size && forall b :: 0 <= b < size ==> ch[b] == []
  {
    seq(size, _ => [])
  }

  function LinkOne(rs: string -> nat, ch: Chains, n: Node): (r: Chains)
    requires ch != []
    ensures |r| == |ch|
  {
    var b := Home(rs, n.key, |ch|);
    ch[b := [n] + ch[b]]
  }

  function LinkAll(rs: string -> nat, ch: Chains, ns: seq<Node>): (r: Chains)
    requires ch != []
    ensures |r| == |ch|
    decreases ns
  {
    if ns == [] then ch else LinkAll(rs, LinkOne(rs, ch, ns[0]), ns[1..])
  }

  // The nodes with key `k`, in order.
  function Matches(ns: seq<Node>, k: string): seq<Node> {
    if ns == [] then []
    else (if ns[0].key == k then [ns[0]] else []) + Matches(ns[1..], k)
  }

  function Found(ch: Chains, rs: string -> nat, k: string): seq<Node>
    requires ch != []
  {
    Matches(ch[Home(rs, k, |ch|)], k)
  }

  // What hashmap_locate finds: the first match in the bucket of the key.
  function Lookup(ch: Chains, rs: string -> nat, k: string): Option<Node>
    requires ch != []
  {
    var m := Found(ch, rs, k);
    if m == [] then None else Some(m[0])
  }

  function Reverse<T>(s: seq<T>): (r: seq<T>)
    ensures |r| == |s| && forall i :: 0 <= i < |s| ==> r[i] == s[|s| - 1 - i]
  {
    if s == [] then [] else Reverse(s[1..]) + [s[0]]
  }

  // ---------------------------------------------------------------------------
  // Linking
  // ---------------------------------------------------------------------------

  lemma MatchesPush(n: Node, ns: seq<Node>, k: string)
    ensures Matches([n] + ns, k) == (if n.key == k then [n] else []) + Matches(ns, k)
  {
    assert ([n] + ns)[1..] == ns;
  }

  lemma {:induction false} MatchesConcat(a: seq<Node>, b: seq<Node>, k: string)
    ensures Matches(a + b, k) == Matches(a, k) + Matches(b, k)
  {
    hide Matches;
    if a == [] {
      NothingMatches(k);
      NilLeft(b);
      NilLeft(Matches(b, k));
    } else {
      assert a + b == [a[0]] + (a[1..] + b) && a == [a[0]] + a[1..];
      MatchesPush(a[0], a[1..] + b, k);
      MatchesPush(a[0], a[1..], k);
      MatchesConcat(a[1..], b, k);
      Assoc(if a[0].key == k then [a[0]] else [], Matches(a[1..], k), Matches(b, k));
    }
  }

  // A linked node shadows what had its key, and nothing else.
  lemma LinkFound(rs: string -> nat, ch: Chains, n: Node, k: string)
    requires ch != []
    ensures Found(LinkOne(rs, ch, n), rs, k) == (if n.key == k then [n] else []) + Found(ch, rs, k)
    ensures Lookup(LinkOne(rs, ch, n), rs, k) == if n.key == k then Some(n) else Lookup(ch, rs, k)
  {
    MatchesPush(n, ch[Home(rs, n.key, |ch|)], k);
  }

  lemma LinkHomed(rs: string -> nat, ch: Chains, n: Node)
    requires ch != [] && Homed(rs, ch)
    ensures Homed(rs, LinkOne(rs, ch, n))
  {
    var b := Home(rs, n.key, |ch|);
    var r := LinkOne(rs, ch, n);
    forall c | 0 <= c < |r| ensures InHome(rs, r[c], c, |r|) {
      assert InHome(rs, ch[c], c, |ch|);
    }
  }

  lemma LinkCounts(rs: string -> nat, ch: Chains, n: Node)
    requires ch != []
    ensures multiset(Flatten(LinkOne(rs, ch, n))) == multiset(Flatten(ch)) + multiset{n}
    ensures |Flatten(LinkOne(rs, ch, n))| == |Flatten(ch)| + 1
  {
    var b := Home(rs, n.key, |ch|);
    PushCounts(ch, b, n);
    assert |Flatten(LinkOne(rs, ch, n))| == |multiset(Flatten(ch)) + multiset{n}|;
  }

  lemma {:induction false} PushCounts(ch: Chains, b: nat, n: Node)
    requires b < |ch|
    ensures multiset(Flatten(ch[b := [n] + ch[b]])) == multiset(Flatten(ch)) + multiset{n}
  {
    hide Flatten;
    var r := ch[b := [n] + ch[b]];
    FlattenHead(ch);
    FlattenHead(r);
    if b == 0 {
      assert r[1..] == ch[1..];
      Assoc([n], ch[0], Flatten(ch[1..]));
    } else {
      assert r[1..] == ch[1..][b - 1 := [n] + ch[1..][b - 1]];
      PushCounts(ch[1..], b - 1, n);
    }
  }

  lemma FlattenHead(ch: Chains)
    requires ch != []
    ensures Flatten(ch) == ch[0] + Flatten(ch[1..])
    ensures multiset(Flatten(ch)) == multiset(ch[0]) + multiset(Flatten(ch[1..]))
  {
  }

  // ---------------------------------------------------------------------------
  // Growing
  // ---------------------------------------------------------------------------

  // The chains after hashmap_grow: every node linked anew, in bucket order.
  function Grown(rs: string -> nat, ch: Chains, size: nat): (r: Chains)
    requires size > 0
    ensures |r| == size
  {
    LinkAll(rs, Empty(size), Flatten(ch))
  }

  lemma {:induction false} LinkAllFound(rs: string -> nat, ch: Chains, ns: seq<Node>, k: string)
    requires ch != []
    ensures Found(LinkAll(rs, ch, ns), rs, k) == Reverse(Matches(ns, k)) + Found(ch, rs, k)
    decreases ns
  {
    hide Home, LinkOne;
    if ns == [] {
      NilLeft(Found(ch, rs, k));
    } else {
      var n := ns[0];
      LinkFound(rs, ch, n, k);
      LinkAllFound(rs, LinkOne(rs, ch, n), ns[1..], k);
      var m := Matches(ns[1..], k);
      if n.key == k {
        assert ([n] + m)[1..] == m;
        Assoc(Reverse(m), [n], Found(ch, rs, k));
      } else {
        NilLeft(m);
        NilLeft(Found(ch, rs, k));
      }
    }
  }

  lemma {:induction false} LinkAllConcat(rs: string -> nat, ch: Chains, a: seq<Node>, b: seq<Node>)
    requires ch != []
    ensures LinkAll(rs, ch, a + b) == LinkAll(rs, LinkAll(rs, ch, a), b)
    decreases a
  {
    hide LinkOne;
    if a == [] {
      NilLeft(b);
    } else {
      assert (a + b)[0] == a[0] && (a + b)[1..] == a[1..] + b;
      LinkAllConcat(rs, LinkOne(rs, ch, a[0]), a[1..], b);
    }
  }

  lemma {:induction false} NoMatches(ns: seq<Node>, k: string)
    requires forall i :: 0 <= i < |ns| ==> ns[i].key != k
    ensures Matches(ns, k) == []
  {
    if ns != [] {
      NoMatches(ns[1..], k);
    }
  }

  // All matches are in the bucket of the key.
  lemma {:induction false} FlattenMatches(rs: string -> nat, ch: Chains, size: nat, from: nat, k: string)
    requires size > 0 && from + |ch| == size
    requires forall b :: 0 <= b < |ch| ==> InHome(rs, ch[b], from + b, size)
    ensures Matches(Flatten(ch), k) ==
            if from <= Home(rs, k, size) then Matches(ch[Home(rs, k, size) - from], k) else []
  {
    hide Home;
    if ch != [] {
      assert InHome(rs, ch[0], from, size);
      forall b | 0 <= b < |ch[1..]| ensures InHome(rs, ch[1..][b], from + 1 + b, size) {
        assert InHome(rs, ch[b + 1], from + (b + 1), size);
      }
      FlattenMatches(rs, ch[1..], size, from + 1, k);
      MatchesConcat(ch[0], Flatten(ch[1..]), k);
      if Home(rs, k, size) != from {
        NoMatches(ch[0], k);
      }
    }
  }

  lemma {:induction false} AllMatches(rs: string -> nat, ch: Chains, k: string)
    requires Homed(rs, ch)
    ensures Matches(Flatten(ch), k) == if ch == [] then [] else Found(ch, rs, k)
  {
    hide Home, InHome, Flatten, Matches;
    if ch == [] {
      NothingMatches(k);
    } else {
      forall b | 0 <= b < |ch| ensures InHome(rs, ch[b], 0 + b, |ch|) {
      }
      FlattenMatches(rs, ch, |ch|, 0, k);
    }
  }

  lemma NothingMatches(k: string)
    ensures Matches(Flatten<Node>([]), k) == [] == Matches([], k)
  {
  }

  // Growth keeps the matches of every key, in reverse order.
  lemma GrownFound(rs: string -> nat, ch: Chains, size: nat, k: string)
    requires size > 0 && Homed(rs, ch)
    ensures Found(Grown(rs, ch, size), rs, k) == if ch == [] then [] else Reverse(Found(ch, rs, k))
  {
    hide Home, LinkAll, Flatten, Matches, Found, Homed;
    LinkAllFound(rs, Empty(size), Flatten(ch), k);
    NothingFound(rs, size, k);
    AllMatches(rs, ch, k);
    NilLeft(Reverse(Matches(Flatten(ch), k)));
  }

  lemma NothingFound(rs: string -> nat, size: nat, k: string)
    requires size > 0
    ensures Found(Empty(size), rs, k) == []
  {
  }

  // So growth leaves a lookup alone exactly when the key is there at most once: of
  // several entries with one key, the newest was found before and the oldest is
  // found after.
  lemma GrownLookup(rs: string -> nat, ch: Chains, size: nat, k: string)
    requires size > 0 && ch != [] && Homed(rs, ch) && Distinct(Flatten(ch))
    ensures Lookup(Grown(rs, ch, size), rs, k) == Lookup(ch, rs, k) <==> |Found(ch, rs, k)| <= 1
  {
    hide Home, Grown;
    GrownFound(rs, ch, size, k);
    AllMatches(rs, ch, k);
    MatchesDistinct(Flatten(ch), k);
  }

  predicate Distinct<T(==)>(s: seq<T>) {
    forall i, j :: 0 <= i < j < |s| ==> s[i] != s[j]
  }

  lemma {:induction false} MatchesDistinct(ns: seq<Node>, k: string)
    requires Distinct(ns)
    ensures Distinct(Matches(ns, k)) && forall n :: n in Matches(ns, k) ==> n in ns
  {
    if ns != [] {
      var n, m := ns[0], Matches(ns[1..], k);
      MatchesDistinct(ns[1..], k);
      assert n !in ns[1..];
      assert forall j :: 0 <= j < |m| ==> m[j] in ns[1..];
      assert forall j :: 1 <= j < |[n] + m| ==> ([n] + m)[j] == m[j - 1];
    }
  }

  lemma {:induction false} LinkAllConserves(rs: string -> nat, ch: Chains, ns: seq<Node>)
    requires ch != [] && Homed(rs, ch)
    ensures multiset(Flatten(LinkAll(rs, ch, ns))) == multiset(Flatten(ch)) + multiset(ns)
    ensures |Flatten(LinkAll(rs, ch, ns))| == |Flatten(ch)| + |ns|
    ensures Homed(rs, LinkAll(rs, ch, ns))
    decreases ns
  {
    hide Homed, LinkOne;
    if ns != [] {
      LinkCounts(rs, ch, ns[0]);
      LinkHomed(rs, ch, ns[0]);
      LinkAllConserves(rs, LinkOne(rs, ch, ns[0]), ns[1..]);
      assert ns == [ns[0]] + ns[1..];
    }
  }

  lemma {:induction false} EmptyFlat(size: nat)
    ensures Flatten(Empty(size)) == []
  {
    if size > 0 {
      assert Empty(size)[1..] == Empty(size - 1);
      EmptyFlat(size - 1);
    }
  }

  // Growth neither loses nor makes entries, and puts each where its key belongs.
  lemma GrownConserves(rs: string -> nat, ch: Chains, size: nat)
    requires size > 0
    ensures var r := Grown(rs, ch, size);
            && multiset(Flatten(r)) == multiset(Flatten(ch)) && |Flatten(r)| == |Flatten(ch)|
            && Homed(rs, r) && |r| == size
  {
    EmptyFlat(size);
    LinkAllConserves(rs, Empty(size), Flatten(ch));
  }

  // The change: of several entries with one key the newest is found before growth, and
  // the oldest after it.
  lemma DuplicateLookup(rs: string -> nat, ch: Chains, size: nat, k: string)
    requires size > 0 && ch != [] && Homed(rs, ch) && Found(ch, rs, k) != []
    ensures var m := Found(ch, rs, k);
            && Lookup(ch, rs, k) == Some(m[0])
            && Lookup(Grown(rs, ch, size), rs, k) == Some(m[|m| - 1])
  {
    hide Home, Grown, Found, Homed;
    GrownFound(rs, ch, size, k);
  }

  // The nodes that belong into bucket `c` of `size`, in order.
  function AtHome(rs: string -> nat, ns: seq<Node>, c: nat, size: nat): seq<Node>
    requires size > 0
  {
    if ns == [] then []
    else (if Home(rs, ns[0].key, size) == c then [ns[0]] else []) + AtHome(rs, ns[1..], c, size)
  }

  lemma {:induction false} LinkAllAt(rs: string -> nat, ch: Chains, ns: seq<Node>, c: nat)
    requires c < |ch|
    ensures LinkAll(rs, ch, ns)[c] == Reverse(AtHome(rs, ns, c, |ch|)) + ch[c]
    decreases ns
  {
    hide Home;
    if ns == [] {
      NilLeft(ch[c]);
    } else {
      var n, m := ns[0], AtHome(rs, ns[1..], c, |ch|);
      LinkAllAt(rs, LinkOne(rs, ch, n), ns[1..], c);
      if Home(rs, n.key, |ch|) == c {
        assert ([n] + m)[1..] == m;
        Assoc(Reverse(m), [n], ch[c]);
      } else {
        NilLeft(m);
      }
    }
  }

  // A grown bucket holds its nodes in reverse order of the old table, so its first
  // node is the last one there that belongs into it.
  lemma GrownAt(rs: string -> nat, ch: Chains, size: nat, c: nat)
    requires c < size
    ensures var m := AtHome(rs, Flatten(ch), c, size);
            && Grown(rs, ch, size)[c] == Reverse(m)
            && (m != [] ==> Grown(rs, ch, size)[c][0] == m[|m| - 1])
  {
    hide Home, LinkAll;
    LinkAllAt(rs, Empty(size), Flatten(ch), c);
    NilLeft(Reverse(AtHome(rs, Flatten(ch), c, size)));
  }

  // ---------------------------------------------------------------------------
  // Unlinking
  // ---------------------------------------------------------------------------

  // Where the first match is, or the length.
  function FirstMatch(ns: seq<Node>, k: string): (i: nat)
    ensures i <= |ns| && (i < |ns| ==> ns[i].key == k)
  {
    if ns == [] || ns[0].key == k then 0 else 1 + FirstMatch(ns[1..], k)
  }

  function Without(ns: seq<Node>, i: nat): seq<Node>
    requires i < |ns|
  {
    ns[..i] + ns[i + 1..]
  }

  lemma {:induction false} NoneBefore(ns: seq<Node>, k: string)
    ensures forall j :: 0 <= j < FirstMatch(ns, k) ==> ns[j].key != k
  {
    if ns != [] && ns[0].key != k {
      NoneBefore(ns[1..], k);
    }
  }

  lemma MatchesAt(ns: seq<Node>, k: string)
    ensures var i := FirstMatch(ns, k);
            Matches(ns, k) == if i < |ns| then [ns[i]] + Matches(ns[i + 1..], k) else []
    ensures forall j :: 0 <= j < FirstMatch(ns, k) ==> ns[j].key != k
  {
    hide FirstMatch, Matches;
    var i := FirstMatch(ns, k);
    NoneBefore(ns, k);
    NoMatches(ns[..i], k);
    if i < |ns| {
      assert ns == ns[..i] + ([ns[i]] + ns[i + 1..]);
      MatchesConcat(ns[..i], [ns[i]] + ns[i + 1..], k);
      MatchesPush(ns[i], ns[i + 1..], k);
      NilLeft([ns[i]] + Matches(ns[i + 1..], k));
    } else {
      DropAll(ns);
    }
  }

  // Taking out the first match of a key drops it and keeps all other lookups.
  lemma {:induction false} WithoutMatches(ns: seq<Node>, k: string, k': string)
    requires FirstMatch(ns, k) < |ns|
    ensures var i := FirstMatch(ns, k);
            Matches(Without(ns, i), k') == if k' == k then Matches(ns[i + 1..], k) else Matches(ns, k')
  {
    hide Matches, FirstMatch;
    var i := FirstMatch(ns, k);
    MatchesAt(ns, k);
    assert ns == ns[..i] + ([ns[i]] + ns[i + 1..]);
    MatchesConcat(ns[..i], ns[i + 1..], k');
    MatchesConcat(ns[..i], [ns[i]] + ns[i + 1..], k');
    MatchesPush(ns[i], ns[i + 1..], k');
    if k' == k {
      NoMatches(ns[..i], k);
      NilLeft(Matches(ns[i + 1..], k));
    } else {
      NilLeft(Matches(ns[i + 1..], k'));
    }
  }

  function Unlinked(rs: string -> nat, ch: Chains, k: string): (r: Chains)
    requires ch != []
    ensures |r| == |ch|
  {
    var b := Home(rs, k, |ch|);
    var i := FirstMatch(ch[b], k);
    if i < |ch[b]| then ch[b := Without(ch[b], i)] else ch
  }

  // Deleting takes out what a lookup found and leaves all other lookups alone.
  lemma UnlinkedFound(rs: string -> nat, ch: Chains, k: string, k': string)
    requires ch != []
    ensures Found(Unlinked(rs, ch, k), rs, k') ==
            if k' == k && Found(ch, rs, k) != [] then Found(ch, rs, k)[1..] else Found(ch, rs, k')
  {
    hide Home, Without, Matches, FirstMatch;
    var b := Home(rs, k, |ch|);
    MatchesAt(ch[b], k);
    if FirstMatch(ch[b], k) < |ch[b]| {
      WithoutMatches(ch[b], k, k');
    }
  }

  lemma WithoutCounts(ns: seq<Node>, i: nat)
    requires i < |ns|
    ensures multiset(ns) == multiset(Without(ns, i)) + multiset{ns[i]}
  {
    assert ns == ns[..i] + ([ns[i]] + ns[i + 1..]);
  }

  lemma {:induction false} ReplaceCounts(ch: Chains, b: nat, t: seq<Node>, n: Node)
    requires b < |ch| && multiset(ch[b]) == multiset(t) + multiset{n}
    ensures multiset(Flatten(ch)) == multiset(Flatten(ch[b := t])) + multiset{n}
  {
    var r := ch[b := t];
    if b == 0 {
      assert r[1..] == ch[1..];
    } else {
      assert r[1..] == ch[1..][b - 1 := t];
      ReplaceCounts(ch[1..], b - 1, t, n);
    }
  }

  lemma WithoutInHome(rs: string -> nat, ns: seq<Node>, i: nat, b: nat, size: nat)
    requires i < |ns| && size > 0 && InHome(rs, ns, b, size)
    ensures InHome(rs, Without(ns, i), b, size)
  {
    hide Home;
    var t := Without(ns, i);
    forall j | 0 <= j < |t| ensures Home(rs, t[j].key, size) == b {
      assert t[j] == ns[if j < i then j else j + 1];
    }
  }

  lemma UnlinkedHomed(rs: string -> nat, ch: Chains, k: string)
    requires ch != [] && Homed(rs, ch)
    ensures Homed(rs, Unlinked(rs, ch, k))
  {
    hide Home, Without, InHome, FirstMatch;
    var b := Home(rs, k, |ch|);
    var i := FirstMatch(ch[b], k);
    if i < |ch[b]| {
      assert InHome(rs, ch[b], b, |ch|);
      WithoutInHome(rs, ch[b], i, b, |ch|);
      forall c | 0 <= c < |ch| ensures InHome(rs, Unlinked(rs, ch, k)[c], c, |ch|) {
        assert InHome(rs, ch[c], c, |ch|);
      }
    }
  }

  // Deleting takes out exactly the entry that a lookup finds.
  lemma UnlinkedConserves(rs: string -> nat, ch: Chains, k: string)
    requires ch != []
    ensures match Lookup(ch, rs, k)
            case None => Unlinked(rs, ch, k) == ch
            case Some(n) =>
              var b := Home(rs, k, |ch|);
              && multiset(Flatten(ch)) == multiset(Flatten(Unlinked(rs, ch, k))) + multiset{n}
              && |Flatten(ch)| == |Flatten(Unlinked(rs, ch, k))| + 1
              && FirstMatch(ch[b], k) < |ch[b]| && n == ch[b][FirstMatch(ch[b], k)]
  {
    hide Home, Without, FirstMatch, Matches;
    var b := Home(rs, k, |ch|);
    var ns := ch[b];
    var i := FirstMatch(ns, k);
    MatchesAt(ns, k);
    if i < |ns| {
      WithoutCounts(ns, i);
      ReplaceCounts(ch, b, Without(ns, i), ns[i]);
      assert |Flatten(ch)| == |multiset(Flatten(ch))|;
      assert |multiset(Flatten(Unlinked(rs, ch, k))) + multiset{ns[i]}| == |Flatten(Unlinked(rs, ch, k))| + 1;
    }
  }

  // ---------------------------------------------------------------------------
  // The map that the chains stand for
  // ---------------------------------------------------------------------------

  // Every key of the map is found once, with its value, and no other key is found.
  ghost predicate Stands(rs: string -> nat, ch: Chains, m: map<string, Option<string>>) {
    forall k ::
      var f := if ch == [] then [] else Found(ch, rs, k);
      if k in m then |f| == 1 && f[0].value == m[k] else f == []
  }

  // While keys are distinct, insertion, growth and deletion are those of a map.
  lemma InsertStands(rs: string -> nat, ch: Chains, m: map<string, Option<string>>, n: Node)
    requires ch != [] && Stands(rs, ch, m) && n.key !in m
    ensures Stands(rs, LinkOne(rs, ch, n), m[n.key := n.value])
  {
    hide Home, Found, LinkOne;
    forall k ensures Found(LinkOne(rs, ch, n), rs, k) == (if n.key == k then [n] else []) + Found(ch, rs, k) {
      LinkFound(rs, ch, n, k);
    }
  }

  lemma GrowthStands(rs: string -> nat, ch: Chains, m: map<string, Option<string>>, size: nat)
    requires Homed(rs, ch) && Stands(rs, ch, m) && size > 0
    ensures Stands(rs, Grown(rs, ch, size), m)
  {
    hide Home, Found, Grown;
    forall k ensures Found(Grown(rs, ch, size), rs, k) == if ch == [] then [] else Reverse(Found(ch, rs, k)) {
      GrownFound(rs, ch, size, k);
    }
  }

  lemma DeleteStands(rs: string -> nat, ch: Chains, m: map<string, Option<string>>, k: string)
    requires ch != [] && Stands(rs, ch, m)
    ensures Stands(rs, Unlinked(rs, ch, k), m - {k})
  {
    hide Home, Found, Unlinked;
    forall k' ensures Found(Unlinked(rs, ch, k), rs, k') ==
            if k' == k && Found(ch, rs, k) != [] then Found(ch, rs, k)[1..] else Found(ch, rs, k')
    {
      UnlinkedFound(rs, ch, k, k');
    }
  }

  // Nodes that differ within and across buckets differ in all.
  lemma {:induction false} FlattenDistinct(ch: Chains)
    requires forall b :: 0 <= b < |ch| ==> Distinct(ch[b])
    requires forall b, c, n :: 0 <= b < c < |ch| && n in ch[b] ==> n !in ch[c]
    ensures Distinct(Flatten(ch))
  {
    if ch != [] {
      var a, r := ch[0], Flatten(ch[1..]);
      FlattenDistinct(ch[1..]);
      forall n | n in a ensures n !in r {
        if n in r {
          FlattenMember(ch[1..], n);
        }
      }
      var s := a + r;
      forall i, j | 0 <= i < j < |s| ensures s[i] != s[j] {
        assert i < |a| ==> s[i] in a;
        assert j >= |a| ==> s[j] in r && s[j] == r[j - |a|];
        assert i >= |a| ==> s[i] == r[i - |a|];
      }
    }
  }

  // The node heads a bucket.
  predicate First(ch: Chains, n: Node) {
    exists b :: 0 <= b < |ch| && ch[b] != [] && ch[b][0] == n
  }

  // Every bucket but `b` is headed by a node that headed a bucket before.
  predicate HeadsStay(was: Chains, ch: Chains, b: nat) {
    forall c :: 0 <= c < |ch| && c != b && ch[c] != [] ==> First(was, ch[c][0])
  }

  lemma {:induction false} FlattenMember(ch: Chains, n: Node)
    requires n in Flatten(ch)
    ensures exists b :: 0 <= b < |ch| && n in ch[b]
  {
    if n in ch[0] {
    } else {
      FlattenMember(ch[1..], n);
      var b :| 0 <= b < |ch| - 1 && n in ch[1..][b];
      assert n in ch[b + 1];
    }
  }

  lemma {:induction false} MemberFlatten(ch: Chains, b: nat, n: Node)
    requires b < |ch| && n in ch[b]
    ensures n in Flatten(ch)
  {
    if b > 0 {
      MemberFlatten(ch[1..], b - 1, n);
    }
  }
}
