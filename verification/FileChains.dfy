/** What a FAT16 volume means: a flat table of cluster numbers, a flat run of clusters, and files as the
    byte sequences their cluster chains spell. */
module FileChains {
  import opened Words

  const NO_CLUSTER: nat := 0xFFF8              // FAT16_NOCLUSTER

  /** Entry `table[c]` follows cluster `c`, whose bytes are `clusters[c]`. Numbers 0 and 1 are reserved by the
      format, but the code computes a place for them like for any other number. */
  datatype FlatFat = FlatFat(table: seq<nat>, clusters: seq<seq<byte>>, size: nat)

  /** `c` is below the end marks, has a table entry, and a whole cluster of bytes. */
  predicate InData(v: FlatFat, c: nat) {
    c < NO_CLUSTER && c < |v.table| && c < |v.clusters| && |v.clusters[c]| == v.size
  }

  predicate AllInData(v: FlatFat, cs: seq<nat>) {
    forall k :: 0 <= k < |cs| ==> InData(v, cs[k])
  }

  /** The cluster after `c`. */
  function Next(v: FlatFat, c: nat): nat
    requires InData(v, c)
  {
    v.table[c]
  }

  // ---------------------------------------------------------------- chains

  /** Following the table from `c` visits exactly `cs` before reaching an end mark. */
  predicate Chain(v: FlatFat, c: nat, cs: seq<nat>)
    decreases |cs|
  {
    if cs == [] then c >= NO_CLUSTER
    else cs[0] == c && InData(v, c) && Chain(v, Next(v, c), cs[1..])
  }

  /** The bytes of the clusters of `cs`, in order. */
  function Contents(v: FlatFat, cs: seq<nat>): (s: seq<byte>)
    requires AllInData(v, cs)
    ensures |s| == v.size * |cs|
  {
    if cs == [] then []
    else
      assert v.size * |cs| == v.size * (|cs| - 1) + v.size;
      Contents(v, cs[..|cs| - 1]) + v.clusters[cs[|cs| - 1]]
  }

  lemma {:induction false} ChainInData(v: FlatFat, c: nat, cs: seq<nat>)
    requires Chain(v, c, cs)
    ensures AllInData(v, cs)
    ensures forall k :: 0 < k < |cs| ==> cs[k] == Next(v, cs[k - 1])
    ensures cs == [] ==> c >= NO_CLUSTER
    ensures cs != [] ==> cs[0] == c && Next(v, cs[|cs| - 1]) >= NO_CLUSTER
    decreases |cs|
  {
    if cs != [] {
      var rest := cs[1..];
      ChainInData(v, Next(v, c), rest);
      forall k | 0 <= k < |cs| ensures InData(v, cs[k]) {
        if k > 0 {
          assert cs[k] == rest[k - 1];
        }
      }
      forall k | 0 < k < |cs| ensures cs[k] == Next(v, cs[k - 1]) {
        if k > 1 {
          assert rest[k - 1] == Next(v, rest[k - 2]);
        }
      }
    }
  }

  lemma {:induction false} ChainUnique(v: FlatFat, c: nat, cs: seq<nat>, ds: seq<nat>)
    requires Chain(v, c, cs) && Chain(v, c, ds)
    ensures cs == ds
    decreases |cs|
  {
    if cs != [] && ds != [] {
      ChainUnique(v, Next(v, c), cs[1..], ds[1..]);
      assert cs == [c] + cs[1..] && ds == [c] + ds[1..];
    }
  }

  lemma {:induction false} ChainSuffix(v: FlatFat, c: nat, cs: seq<nat>, k: nat)
    requires Chain(v, c, cs) && k < |cs|
    ensures Chain(v, cs[k], cs[k..])
    decreases |cs|
  {
    if k > 0 {
      ChainSuffix(v, Next(v, c), cs[1..], k - 1);
      assert cs[1..][k - 1..] == cs[k..];
    } else {
      assert cs[0..] == cs;
    }
  }

  // ---------------------------------------------------------------- termination

  predicate Distinct(s: seq<nat>) {
    forall i, j :: 0 <= i < j < |s| ==> s[i] != s[j]
  }

  /** The data clusters met in at most `n` steps from `c`. */
  function Visited(v: FlatFat, c: nat, n: nat): (s: seq<nat>)
    ensures |s| <= n && AllInData(v, s)
    decreases n
  {
    if n == 0 || !InData(v, c) then [] else [c] + Visited(v, Next(v, c), n - 1)
  }

  /** From `c`, every table entry met names a data cluster or is an end mark. */
  ghost predicate Sane(v: FlatFat, c: nat) {
    && (c >= NO_CLUSTER || InData(v, c))
    && forall n: nat, d: nat :: d in Visited(v, c, n) ==> Next(v, d) >= NO_CLUSTER || InData(v, Next(v, d))
  }

  lemma ChainIsDistinct(v: FlatFat, c: nat, cs: seq<nat>)
    requires Chain(v, c, cs)
    ensures Distinct(cs)
  {
    forall i, j | 0 <= i < j < |cs| ensures cs[i] != cs[j] {
      ChainSuffix(v, c, cs, i);
      ChainSuffix(v, c, cs, j);
      if cs[i] == cs[j] {
        ChainUnique(v, cs[i], cs[i..], cs[j..]);
        assert false;
      }
    }
  }

  lemma {:induction false} VisitedPrefix(v: FlatFat, c: nat, cs: seq<nat>, n: nat)
    requires Chain(v, c, cs)
    ensures Visited(v, c, n) == if n <= |cs| then cs[..n] else cs
    decreases n
  {
    if n > 0 && cs != [] {
      VisitedPrefix(v, Next(v, c), cs[1..], n - 1);
      assert cs == [c] + cs[1..];
    }
  }

  lemma SaneNext(v: FlatFat, c: nat)
    requires Sane(v, c) && InData(v, c)
    ensures Sane(v, Next(v, c))
  {
    assert c in Visited(v, c, 1);
    forall n: nat, d: nat | d in Visited(v, Next(v, c), n)
      ensures Next(v, d) >= NO_CLUSTER || InData(v, Next(v, d))
    {
      assert d in Visited(v, c, n + 1);
    }
  }

  /** A walk that stops before its step bound has reached an end mark. */
  lemma {:induction false} ShortVisitIsChain(v: FlatFat, c: nat, n: nat)
    requires Sane(v, c) && |Visited(v, c, n)| < n
    ensures Chain(v, c, Visited(v, c, n))
    decreases n
  {
    if InData(v, c) {
      var rest := Visited(v, Next(v, c), n - 1);
      SaneNext(v, c);
      ShortVisitIsChain(v, Next(v, c), n - 1);
      assert ([c] + rest)[1..] == rest;
    }
  }

  /** Distinct numbers below a bound are at most that many. */
  lemma {:induction false} DistinctIsShort(s: seq<nat>, bound: nat)
    requires Distinct(s) && forall k :: 0 <= k < |s| ==> s[k] < bound
    ensures |s| <= bound
    decreases bound
  {
    if s != [] {
      assert s[0] < bound;
      if bound - 1 in s {
        var k :| 0 <= k < |s| && s[k] == bound - 1;
        var t := s[..k] + s[k + 1..];
        forall j | 0 <= j < |t| ensures t[j] < bound - 1 {
          var i := if j < k then j else j + 1;
          assert t[j] == s[i] && s[i] != s[k];
        }
        DistinctIsShort(t, bound - 1);
      } else {
        forall k | 0 <= k < |s| ensures s[k] < bound - 1 {
          assert s[k] in s;
        }
        DistinctIsShort(s, bound - 1);
      }
    }
  }

  /** The walk from `c` reaches an end mark. */
  ghost predicate Ends(v: FlatFat, c: nat) {
    exists cs: seq<nat> :: Chain(v, c, cs)
  }

  /** No cluster is met twice, however far the walk goes. */
  ghost predicate Acyclic(v: FlatFat, c: nat) {
    forall n: nat :: Distinct(Visited(v, c, n))
  }

  /** Reading ends exactly when no cluster is met twice. */
  lemma EndsIffAcyclic(v: FlatFat, c: nat)
    requires Sane(v, c)
    ensures Ends(v, c) <==> Acyclic(v, c)
  {
    hide Sane, Distinct;
    if Ends(v, c) {
      var cs: seq<nat> :| Chain(v, c, cs);
      forall n: nat ensures Distinct(Visited(v, c, n)) {
        VisitIsDistinct(v, c, cs, n);
      }
    }
    if Acyclic(v, c) {
      assert Distinct(Visited(v, c, NO_CLUSTER + 1));
      LongVisitIsChain(v, c);
      assert Ends(v, c);
    }
  }

  lemma VisitIsDistinct(v: FlatFat, c: nat, cs: seq<nat>, n: nat)
    requires Chain(v, c, cs)
    ensures Distinct(Visited(v, c, n))
  {
    hide Chain;
    ChainIsDistinct(v, c, cs);
    VisitedPrefix(v, c, cs, n);
  }

  /** There are fewer cluster numbers than steps in this walk. */
  lemma LongVisitIsChain(v: FlatFat, c: nat)
    requires Sane(v, c) && Distinct(Visited(v, c, NO_CLUSTER + 1))
    ensures Chain(v, c, Visited(v, c, NO_CLUSTER + 1))
  {
    hide Sane, Distinct, Visited;
    DistinctIsShort(Visited(v, c, NO_CLUSTER + 1), NO_CLUSTER);
    ShortVisitIsChain(v, c, NO_CLUSTER + 1);
  }

  /** The clusters of a file are distinct, so there are at most 0xFFF8 of them. */
  lemma ChainIsShort(v: FlatFat, c: nat, cs: seq<nat>)
    requires Chain(v, c, cs)
    ensures Distinct(cs) && |cs| <= 0xFFF8
  {
    ChainIsDistinct(v, c, cs);
    ChainInData(v, c, cs);
    DistinctIsShort(cs, NO_CLUSTER);
  }

  /** A chain delivers no bytes exactly when its first cluster is an end mark: nothing else about a file is looked at. */
  lemma DeliversNothingIff(v: FlatFat, c: nat, cs: seq<nat>)
    requires Chain(v, c, cs) && v.size > 0
    ensures AllInData(v, cs) && (Contents(v, cs) == [] <==> c >= 0xFFF8)
  {
    hide InData;
    ChainInData(v, c, cs);
    if cs != [] {
      Multiples(v.size, 0, |cs|);
      ChainStarts(v, c, cs);
    }
  }

  lemma ChainStarts(v: FlatFat, c: nat, cs: seq<nat>)
    requires Chain(v, c, cs) && cs != []
    ensures c < NO_CLUSTER
  {
  }

  /** An empty file's entry names cluster 0. With an end mark in table entry 0, as the format puts there, its
      chain is that one reserved cluster: a reader that follows chains delivers a whole cluster for no bytes. */
  lemma EmptyFileDeliversACluster(v: FlatFat)
    requires InData(v, 0) && v.table[0] >= NO_CLUSTER
    ensures Chain(v, 0, [0]) && Contents(v, [0]) == v.clusters[0] && |Contents(v, [0])| == v.size
  {
    var cs: seq<nat> := [0];
    assert cs[1..] == [] && Chain(v, v.table[0], []);
    assert cs[..0] == [] && Contents(v, []) == [];
  }

  // ---------------------------------------------------------------- reading piecewise

  /** `fat_readSector`, `n` times: the cluster left in the handle, and all bytes delivered. */
  function ReadSectors(v: FlatFat, c: nat, n: nat): (r: (nat, seq<byte>))
    requires Sane(v, c)
    decreases n
  {
    if n == 0 || c >= NO_CLUSTER then (c, [])
    else
      SaneNext(v, c);
      var (next, rest) := ReadSectors(v, Next(v, c), n - 1);
      (next, v.clusters[c] + rest)
  }

  lemma {:induction false} ContentsFirst(v: FlatFat, cs: seq<nat>)
    requires cs != [] && AllInData(v, cs)
    ensures Contents(v, cs) == v.clusters[cs[0]] + Contents(v, cs[1..])
  {
    if |cs| > 1 {
      var last := cs[|cs| - 1];
      ContentsFirst(v, cs[..|cs| - 1]);
      assert cs[..|cs| - 1][1..] == cs[1..][..|cs| - 2];
      assert cs[..|cs| - 1][0] == cs[0] && cs[1..][|cs| - 2] == last;
    } else {
      assert Contents(v, cs[1..]) == [] == Contents(v, cs[..0]);
    }
  }

  function Taken(cs: seq<nat>, n: nat): seq<nat> {
    if n <= |cs| then cs[..n] else cs
  }

  /** Repeated sector reads deliver the file's clusters in order, reach an end mark after exactly as many
      reads as the chain has clusters, and deliver nothing more from then on. */
  lemma {:induction false} ReadSectorsIsContents(v: FlatFat, c: nat, cs: seq<nat>, n: nat)
    requires Sane(v, c) && Chain(v, c, cs)
    ensures AllInData(v, Taken(cs, n)) && ReadSectors(v, c, n).1 == Contents(v, Taken(cs, n))
    ensures ReadSectors(v, c, n).0 >= 0xFFF8 <==> n >= |cs|
    decreases n
  {
    hide Sane, Taken;
    TakenContents(v, c, cs, n);
    if n > 0 && cs != [] {
      SaneNext(v, c);
      ReadSectorsIsContents(v, Next(v, c), cs[1..], n - 1);
    }
  }

  lemma TakenContents(v: FlatFat, c: nat, cs: seq<nat>, n: nat)
    requires Chain(v, c, cs)
    ensures AllInData(v, Taken(cs, n))
    ensures n == 0 || cs == [] ==> Contents(v, Taken(cs, n)) == []
    ensures n > 0 && cs != [] ==> InData(v, c) && AllInData(v, Taken(cs[1..], n - 1))
    ensures n > 0 && cs != [] ==> Contents(v, Taken(cs, n)) == v.clusters[c] + Contents(v, Taken(cs[1..], n - 1))
  {
    hide InData;
    ChainInData(v, c, cs);
    if n > 0 && cs != [] {
      ContentsFirst(v, Taken(cs, n));
      assert Taken(cs, n)[1..] == Taken(cs[1..], n - 1);
    } else {
      assert Taken(cs, n) == [];
    }
  }

  /** The range of file bytes inside one cluster of the chain. */
  lemma {:induction false} ContentsAt(v: FlatFat, cs: seq<nat>, k: nat, o: nat, n: nat)
    requires AllInData(v, cs) && k < |cs| && o + n <= v.size
    ensures v.size * k + o + n <= |Contents(v, cs)|
    ensures Contents(v, cs)[v.size * k + o..v.size * k + o + n] == v.clusters[cs[k]][o..o + n]
  {
    hide Contents;
    assert InData(v, cs[k]);
    if k < |cs| - 1 {
      ContentsAt(v, cs[..|cs| - 1], k, o, n);
      EarlierAt(v, cs, v.size * k + o, n, v.clusters[cs[k]][o..o + n]);
    } else {
      LastAt(v, cs, o, n);
    }
  }

  lemma EarlierAt(v: FlatFat, cs: seq<nat>, at: nat, n: nat, s: seq<byte>)
    requires cs != [] && AllInData(v, cs) && at + n <= |Contents(v, cs[..|cs| - 1])|
    requires Contents(v, cs[..|cs| - 1])[at..at + n] == s
    ensures at + n <= |Contents(v, cs)| && Contents(v, cs)[at..at + n] == s
  {
    hide InData, Contents;
    ContentsLast(v, cs);
    SliceOfFirst(Contents(v, cs[..|cs| - 1]), v.clusters[cs[|cs| - 1]], at, n);
  }

  lemma LastAt(v: FlatFat, cs: seq<nat>, o: nat, n: nat)
    requires cs != [] && AllInData(v, cs) && o + n <= v.size
    ensures v.size * (|cs| - 1) + o + n <= |Contents(v, cs)| && cs[|cs| - 1] < |v.clusters|
    ensures |v.clusters[cs[|cs| - 1]]| == v.size
    ensures Contents(v, cs)[v.size * (|cs| - 1) + o..v.size * (|cs| - 1) + o + n] == v.clusters[cs[|cs| - 1]][o..o + n]
  {
    hide InData, Contents;
    ContentsLast(v, cs);
    SliceOfSecond(Contents(v, cs[..|cs| - 1]), v.clusters[cs[|cs| - 1]], o, n);
  }

  lemma ContentsLast(v: FlatFat, cs: seq<nat>)
    requires cs != [] && AllInData(v, cs)
    ensures cs[|cs| - 1] < |v.clusters| && |v.clusters[cs[|cs| - 1]]| == v.size
    ensures Contents(v, cs) == Contents(v, cs[..|cs| - 1]) + v.clusters[cs[|cs| - 1]]
  {
  }

  lemma SliceOfFirst(a: seq<byte>, b: seq<byte>, at: nat, n: nat)
    requires at + n <= |a|
    ensures (a + b)[at..at + n] == a[at..at + n]
  {
  }

  lemma SliceOfSecond(a: seq<byte>, b: seq<byte>, at: nat, n: nat)
    requires at + n <= |b|
    ensures (a + b)[|a| + at..|a| + at + n] == b[at..at + n]
  {
  }

  lemma Multiples(s: nat, k: nat, n: nat)
    requires k <= n
    ensures s * k <= s * n && s * (k + 1) == s * k + s && (k < n ==> s * (k + 1) <= s * n)
  {
    assert s * n == s * k + s * (n - k);
    assert k < n ==> s * (n - k) == s + s * (n - k - 1);
  }
}
