/** Files of a FAT16 image as chains of clusters, in the layout of the reader: cluster N lies N clusters
    after the start of the data. */
module FatChains {
  import opened Basics

  const CHAIN_END: nat := 0xFFF8

  /** Addition and multiplication of `unsigned int`. */
  function Add32(a: uint32, b: uint32): uint32 {
    U32(a + b)
  }

  function Mul32(a: uint32, b: uint32): uint32 {
    U32(a * b)
  }

  /** What the reader knows of an image: the size of a cluster and the byte at which the data starts, both
      in 32 bits, the table, and the bytes of the image. */
  datatype Volume = Volume(clusterSize: uint32, dataStartByte: uint32, fat: seq<uint16>, image: seq<byte>)
  {
    /** Where cluster n is read, in 32 bits. */
    function Position(n: uint32): uint32 {
      Add32(dataStartByte, Mul32(n, clusterSize))
    }
  }

  /** A cluster with an entry in the table and all its bytes in the image. */
  predicate Usable(v: Volume, n: nat) {
    n < |v.fat| && n < 0x1_0000_0000 && v.Position(n) + v.clusterSize <= |v.image|
  }

  predicate Links(v: Volume, n: nat)
    requires n < |v.fat|
  {
    0 < v.fat[n] < CHAIN_END
  }

  /** Clusters are not empty, and every entry that links to a cluster links to a usable one. */
  predicate ValidFat(v: Volume) {
    && v.clusterSize > 0
    && forall n :: 0 <= n < |v.fat| && Links(v, n) ==> Usable(v, v.fat[n])
  }

  function Cluster(v: Volume, n: nat): (r: seq<byte>)
    requires Usable(v, n)
    ensures |r| == v.clusterSize
  {
    v.image[v.Position(n)..v.Position(n) + v.clusterSize]
  }

  /** The first k clusters of the chain from n, or all of them if there are fewer; a chain that runs in a
      circle has as many as one asks for. */
  function Chain(v: Volume, n: nat, k: nat): (r: seq<nat>)
    requires ValidFat(v) && Usable(v, n)
    ensures |r| <= k && forall i :: 0 <= i < |r| ==> Usable(v, r[i])
    decreases k
  {
    if k == 0 then []
    else if Links(v, n) then [n] + Chain(v, v.fat[n], k - 1)
    else [n]
  }

  function Bytes(v: Volume, ns: seq<nat>): (r: seq<byte>)
    requires forall i :: 0 <= i < |ns| ==> Usable(v, ns[i])
  {
    if ns == [] then [] else Cluster(v, ns[0]) + Bytes(v, ns[1..])
  }

  function Take<T>(s: seq<T>, n: nat): seq<T> {
    s[..if n < |s| then n else |s|]
  }

  /** How many whole clusters a read of `length` bytes uses up. */
  function Whole(length: nat, c: nat): nat
    decreases length
  {
    if c == 0 || length < c then 0 else 1 + Whole(length - c, c)
  }

  lemma {:induction false} WholeBounds(length: nat, c: nat)
    requires c > 0
    ensures Whole(length, c) * c <= length < (Whole(length, c) + 1) * c
    decreases length
  {
    if length >= c {
      WholeBounds(length - c, c);
      var q := Whole(length - c, c);
      assert (q + 1) * c == q * c + c && (q + 2) * c == (q + 1) * c + c;
    }
  }

  lemma {:induction false} WholeGrows(short: nat, long: nat, c: nat)
    requires short <= long
    ensures Whole(short, c) <= Whole(long, c)
    decreases short
  {
    if c > 0 && short >= c { WholeGrows(short - c, long - c, c); }
  }

  /** A zero entry stands at one of the clusters that a read of `length` bytes uses up. */
  predicate MeetsZero(v: Volume, n: nat, length: nat)
    requires ValidFat(v) && Usable(v, n)
  {
    var ns := Chain(v, n, Whole(length, v.clusterSize));
    exists i :: 0 <= i < |ns| && v.fat[ns[i]] == 0
  }

  /** The beginning of the chained clusters, as far as `length` reaches. */
  function Content(v: Volume, n: nat, length: nat): seq<byte>
    requires ValidFat(v) && Usable(v, n)
  {
    Take(Bytes(v, Chain(v, n, Whole(length, v.clusterSize) + 1)), length)
  }

  // ---------- The reading loop ----------

  function Prepend(s: seq<byte>, r: Option<seq<byte>>): Option<seq<byte>> {
    match r
    case None => None
    case Some(t) => Some(s + t)
  }

  /** What the loop returns from cluster n on with `left` bytes to read. */
  function ReadFrom(v: Volume, n: nat, left: nat): Option<seq<byte>>
    requires ValidFat(v) && Usable(v, n)
    decreases left
  {
    if left < v.clusterSize then Some(Cluster(v, n)[..left])
    else if v.fat[n] == 0 then None
    else if v.fat[n] >= CHAIN_END then Some(Cluster(v, n))
    else Prepend(Cluster(v, n), ReadFrom(v, v.fat[n], left - v.clusterSize))
  }

  /** The loop returns the beginning of the chained clusters, or nothing exactly when it meets a zero entry. */
  lemma {:induction false} ReadFromRefinesChain(v: Volume, n: nat, left: nat)
    requires ValidFat(v) && Usable(v, n)
    ensures ReadFrom(v, n, left) == if MeetsZero(v, n, left) then None else Some(Content(v, n, left))
    decreases left
  {
    var c := v.clusterSize;
    if left < c {
      ShortRead(v, n, left);
    } else {
      var k := Whole(left, c);
      if Links(v, n) {
        ReadFromRefinesChain(v, v.fat[n], left - c);
        LinkedZero(v, n, left);
        LinkedContent(v, n, left);
      } else {
        assert Chain(v, n, k) == Chain(v, n, k + 1) == [n];
        assert Bytes(v, [n]) == Cluster(v, n) by { assert [n][1..] == []; }
        assert v.fat[n] == 0 ==> MeetsZero(v, n, left) by { assert Chain(v, n, k)[0] == n; }
      }
    }
  }

  lemma ShortRead(v: Volume, n: nat, left: nat)
    requires ValidFat(v) && Usable(v, n) && left < v.clusterSize
    ensures !MeetsZero(v, n, left) && Content(v, n, left) == Cluster(v, n)[..left]
  {
    assert Whole(left, v.clusterSize) == 0;
    var ns := Chain(v, n, 1);
    assert ns == [n];
    assert Bytes(v, [n]) == Cluster(v, n) by { assert [n][1..] == []; }
  }

  lemma TakePlus<T>(s: seq<T>, u: seq<T>, n: nat)
    requires |s| <= n
    ensures Take(s + u, n) == s + Take(u, n - |s|)
  {
  }

  lemma LinkedChain(v: Volume, n: nat, k: nat)
    requires ValidFat(v) && Usable(v, n) && Links(v, n) && k > 0
    ensures Chain(v, n, k) == [n] + Chain(v, v.fat[n], k - 1)
    ensures Bytes(v, Chain(v, n, k)) == Cluster(v, n) + Bytes(v, Chain(v, v.fat[n], k - 1))
  {
    assert Chain(v, n, k)[1..] == Chain(v, v.fat[n], k - 1);
  }

  lemma LinkedZero(v: Volume, n: nat, left: nat)
    requires ValidFat(v) && Usable(v, n) && Links(v, n) && v.clusterSize <= left
    ensures MeetsZero(v, n, left) <==> MeetsZero(v, v.fat[n], left - v.clusterSize)
  {
    var c := v.clusterSize;
    assert Whole(left, c) == 1 + Whole(left - c, c);
    LinkedChain(v, n, Whole(left, c));
    var ns, ms := Chain(v, n, Whole(left, c)), Chain(v, v.fat[n], Whole(left - c, c));
    assert v.fat[n] != 0 && ns == [n] + ms;
    hide Whole, Chain, Usable, ValidFat, Links;
    assert forall i :: 0 <= i < |ms| ==> ns[i + 1] == ms[i];
    assert forall i :: 0 < i < |ns| ==> ns[i] == ms[i - 1];
  }

  lemma LinkedContent(v: Volume, n: nat, left: nat)
    requires ValidFat(v) && Usable(v, n) && Links(v, n) && v.clusterSize <= left
    ensures Content(v, n, left) == Cluster(v, n) + Content(v, v.fat[n], left - v.clusterSize)
  {
    var c, m := v.clusterSize, v.fat[n];
    var k := Whole(left, c);
    assert k == 1 + Whole(left - c, c);
    LinkedChain(v, n, k + 1);
    TakePlus(Cluster(v, n), Bytes(v, Chain(v, m, k)), left);
    hide Whole, Chain, Bytes, Cluster, Take;
  }

  // ---------- What a read means ----------

  lemma OneMore(k: nat, c: nat)
    ensures (k + 1) * c == k * c + c
  {
  }

  lemma {:induction false} BytesLength(v: Volume, ns: seq<nat>)
    requires forall i :: 0 <= i < |ns| ==> Usable(v, ns[i])
    ensures |Bytes(v, ns)| == |ns| * v.clusterSize
  {
    if ns != [] {
      BytesLength(v, ns[1..]);
      OneMore(|ns| - 1, v.clusterSize);
      hide *;
    }
  }

  /** Asking for more clusters only adds some at the end. */
  lemma {:induction false} ChainGrows(v: Volume, n: nat, k: nat, l: nat)
    requires ValidFat(v) && Usable(v, n) && k <= l
    ensures Chain(v, n, k) <= Chain(v, n, l)
    ensures |Chain(v, n, k)| < k ==> Chain(v, n, k) == Chain(v, n, l)
    decreases k
  {
    if k > 0 && Links(v, n) { ChainGrows(v, v.fat[n], k - 1, l - 1); }
  }

  lemma {:induction false} BytesGrow(v: Volume, ns: seq<nat>, ms: seq<nat>)
    requires forall i :: 0 <= i < |ms| ==> Usable(v, ms[i])
    requires ns <= ms
    ensures Bytes(v, ns) <= Bytes(v, ms)
    decreases |ns|
  {
    if ns != [] { BytesGrow(v, ns[1..], ms[1..]); }
  }

  /** However many clusters of the chain are looked at, as long as they are more than the read uses up, the
      content is the first min(length, n * C) bytes of their n. */
  lemma ContentIsPrefix(v: Volume, n: nat, length: nat, k: nat)
    requires ValidFat(v) && Usable(v, n) && k > Whole(length, v.clusterSize)
    ensures Content(v, n, length) == Take(Bytes(v, Chain(v, n, k)), length)
    ensures |Content(v, n, length)| ==
            if length < |Chain(v, n, k)| * v.clusterSize then length else |Chain(v, n, k)| * v.clusterSize
  {
    var c := v.clusterSize;
    var q := Whole(length, c) + 1;
    var ns, ms := Chain(v, n, q), Chain(v, n, k);
    ChainGrows(v, n, q, k);
    BytesGrow(v, ns, ms);
    BytesLength(v, ns);
    BytesLength(v, ms);
    if |ns| == q {
      WholeBounds(length, c);
      assert |Bytes(v, ns)| == q * c > length;
    }
  }

  /** The chain begins at n, follows the table from each cluster to the next, and is shorter than asked for
      only if it ends at an entry that links to nothing. */
  lemma {:induction false} ChainFollowsTable(v: Volume, n: nat, k: nat)
    requires ValidFat(v) && Usable(v, n) && k > 0
    ensures var ns := Chain(v, n, k);
            && 0 < |ns| <= k && ns[0] == n
            && (forall i :: 0 <= i < |ns| - 1 ==> 0 < v.fat[ns[i]] < CHAIN_END && ns[i + 1] == v.fat[ns[i]])
            && (|ns| < k ==> v.fat[ns[|ns| - 1]] == 0 || v.fat[ns[|ns| - 1]] >= CHAIN_END)
    decreases k
  {
    if k > 1 && Links(v, n) {
      ChainFollowsTable(v, v.fat[n], k - 1);
      var rest := Chain(v, v.fat[n], k - 1);
      assert Chain(v, n, k) == [n] + rest;
      hide Chain, ValidFat, Usable;
      forall i | 0 <= i < |rest|
        ensures 0 < v.fat[([n] + rest)[i]] < CHAIN_END && ([n] + rest)[i + 1] == v.fat[([n] + rest)[i]]
      {
        if i > 0 { assert rest[i] == v.fat[rest[i - 1]]; }
      }
    }
  }

  lemma {:induction false} BytesAt(v: Volume, ns: seq<nat>, k: nat)
    requires (forall j :: 0 <= j < |ns| ==> Usable(v, ns[j])) && k < |ns|
    ensures Bytes(v, ns) == Bytes(v, ns[..k]) + (Cluster(v, ns[k]) + Bytes(v, ns[k + 1..]))
  {
    hide Usable, Cluster, U32;
    if k == 0 {
      assert ns[..0] == [] && Bytes(v, []) == [];
    } else {
      var rest := ns[1..];
      BytesAt(v, rest, k - 1);
      assert rest[..k - 1] == ns[..k][1..] && rest[k..] == ns[k + 1..] && rest[k - 1] == ns[k];
      var head, a, b := Cluster(v, ns[0]), Bytes(v, rest[..k - 1]), Cluster(v, ns[k]) + Bytes(v, ns[k + 1..]);
      assert Bytes(v, ns) == head + Bytes(v, rest) && Bytes(v, ns[..k]) == head + a;
      hide *;
      assert head + (a + b) == (head + a) + b;
    }
  }

  /** The byte b stands in the image at place m of cluster n, which begins n clusters after the start of the
      data, in 32 bits. */
  predicate InCluster(v: Volume, n: nat, m: nat, b: byte) {
    var at := U32(v.dataStartByte + U32(n * v.clusterSize)) + m;
    at < |v.image| && v.image[at] == b
  }

  /** The byte b, number i of the clusters ns, stands at place i % C of cluster ns[i / C]. */
  predicate StandsAt(v: Volume, ns: seq<nat>, i: nat, b: byte) {
    v.clusterSize > 0 && i / v.clusterSize < |ns| && InCluster(v, ns[i / v.clusterSize], i % v.clusterSize, b)
  }

  lemma ByteOfClusters(v: Volume, ns: seq<nat>, i: nat)
    requires (forall j :: 0 <= j < |ns| ==> Usable(v, ns[j])) && i < |Bytes(v, ns)| && v.clusterSize > 0
    ensures StandsAt(v, ns, i, Bytes(v, ns)[i])
  {
    hide Usable, Cluster, Bytes, InCluster;
    BytesLength(v, ns);
    Place(i, v.clusterSize, |ns|, |Bytes(v, ns)|);
    ByteInCluster(v, ns, i / v.clusterSize, i % v.clusterSize, i);
  }

  lemma Place(i: nat, c: nat, n: nat, length: nat)
    requires c > 0 && length == n * c && i < length
    ensures i / c < n && 0 <= i % c < c && i == i / c * c + i % c
  {
    if i / c >= n { AtLeast(n, i / c, c); }
  }

  lemma ByteInCluster(v: Volume, ns: seq<nat>, k: nat, m: nat, i: nat)
    requires (forall j :: 0 <= j < |ns| ==> Usable(v, ns[j])) && k < |ns| && m < v.clusterSize
    requires i == k * v.clusterSize + m && i < |Bytes(v, ns)|
    ensures InCluster(v, ns[k], m, Bytes(v, ns)[i])
  {
    BytesLength(v, ns[..k]);
    BytesAt(v, ns, k);
    ClusterByte(v, ns[k], m);
    var before, rest := Bytes(v, ns[..k]), Bytes(v, ns[k + 1..]);
    assert |before| + m == i;
    hide *;
    InMiddle(before, Cluster(v, ns[k]), rest, m);
  }

  lemma InMiddle(a: seq<byte>, b: seq<byte>, e: seq<byte>, m: nat)
    requires m < |b|
    ensures (a + (b + e))[|a| + m] == b[m]
  {
  }

  lemma AtLeast(a: nat, b: nat, c: nat)
    requires a <= b
    ensures a * c <= b * c
  {
    assert (b - a) * c >= 0;
  }

  lemma ClusterByte(v: Volume, n: nat, i: nat)
    requires Usable(v, n) && i < v.clusterSize
    ensures InCluster(v, n, i, Cluster(v, n)[i])
  {
  }

  /** Every byte that is read stands in the image in its cluster of the chain. */
  lemma ByteOfContent(v: Volume, n: nat, length: nat, i: nat)
    requires ValidFat(v) && Usable(v, n) && i < |Content(v, n, length)|
    ensures StandsAt(v, Chain(v, n, Whole(length, v.clusterSize) + 1), i, Content(v, n, length)[i])
  {
    var ns := Chain(v, n, Whole(length, v.clusterSize) + 1);
    assert v.clusterSize > 0 && Content(v, n, length) <= Bytes(v, ns);
    assert forall j :: 0 <= j < |ns| ==> Usable(v, ns[j]);
    hide *;
    ByteOfClusters(v, ns, i);
  }

  lemma PrefixOfClusters(v: Volume, n: nat, length: nat, k: nat)
    requires ValidFat(v) && Usable(v, n) && k > Whole(length, v.clusterSize)
    ensures var text, ns := Content(v, n, length), Chain(v, n, k);
            |text| == Min(length, |Bytes(v, ns)|) && text == Bytes(v, ns)[..|text|]
  {
    ContentIsPrefix(v, n, length, k);
    BytesLength(v, Chain(v, n, k));
    hide Chain, Bytes, Content, Usable, ValidFat, Whole;
  }

  /** A shorter read succeeds when a longer one does, and gives a beginning of it. */
  lemma ShorterReadIsPrefix(v: Volume, n: nat, short: nat, long: nat)
    requires ValidFat(v) && Usable(v, n) && short <= long
    requires ReadFrom(v, n, long).Some?
    ensures ReadFrom(v, n, short).Some? && ReadFrom(v, n, short).value <= ReadFrom(v, n, long).value
  {
    hide Usable, ValidFat, Links, Chain, Bytes, Cluster, Whole, ReadFrom;
    ReadFromRefinesChain(v, n, short);
    ReadFromRefinesChain(v, n, long);
    var c := v.clusterSize;
    WholeGrows(short, long, c);
    ChainGrows(v, n, Whole(short, c), Whole(long, c));
    var ns, ms := Chain(v, n, Whole(short, c)), Chain(v, n, Whole(long, c));
    assert forall i :: 0 <= i < |ns| ==> ms[i] == ns[i];
    ContentIsPrefix(v, n, short, Whole(long, c) + 1);
  }
}
