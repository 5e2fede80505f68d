/** The reader of a FAT16 image as it runs, in 32-bit arithmetic. */
module FatReader {
  import opened Basics
  import opened Digits
  import opened FatChains

  /** The next shifted byte, and the sum with it, fit 32 bits. */
  lemma NextFits(s: seq<byte>, i: nat)
    requires i < |s| && i < 4
    ensures 0 <= s[i] * Pow256(i) && Little(s[..i + 1]) == Little(s[..i]) + s[i] * Pow256(i) < 0x1_0000_0000
  {
    assert s[..i + 1] == s[..i] + [s[i]];
    LittlePush(s[..i], s[i]);
    LittleBound(s[..i + 1]);
    PowersFit(i + 1);
  }

  /** Reads at most four bytes; the sum of the shifted bytes never wraps. */
  method BytesToUnsigned(start: seq<byte>, size: nat) returns (accum: uint32)
    requires size <= |start| && size <= 4
    ensures accum == Little(start[..size])
  {
    accum := 0;
    var i := 0;
    assert Little(start[..0]) == 0;
    hide Pow256, Little;
    while i < size
      invariant 0 <= i <= size
      invariant accum == Little(start[..i])
    {
      NextFits(start, i);
      accum := U32(accum + U32(start[i] * Pow256(i)));
      i := i + 1;
    }
  }

  lemma PowersFit(i: nat)
    requires i <= 4
    ensures Pow256(i) <= 0x1_0000_0000
  {
    assert Pow256(0) == 1 && Pow256(1) == 0x100 && Pow256(2) == 0x1_0000;
    assert Pow256(3) == 0x100_0000 && Pow256(4) == 0x1_0000_0000;
  }

  datatype DirEntry = DirEntry(shortFileName: string, size: uint32)

  class FATData {
    const bytesPerSector: uint16
    const sectorsPerCluster: byte
    const dataStart: uint32
    var fat: seq<uint16>
    var image: seq<byte>
    var rootEnts: seq<DirEntry>
    var fileStarts: seq<uint32>

    constructor (sectorBytes: uint16, clusterSectors: byte, firstSector: uint32, table: seq<uint16>, bytes: seq<byte>,
                 entries: seq<DirEntry>, starts: seq<uint32>)
      requires |entries| == |starts|
      ensures Value() == Volume(Mul32(sectorBytes, clusterSectors), Mul32(firstSector, sectorBytes), table, bytes)
      ensures rootEnts == entries && fileStarts == starts
    {
      bytesPerSector, sectorsPerCluster, dataStart := sectorBytes, clusterSectors, firstSector;
      fat, image := table, bytes;
      rootEnts, fileStarts := entries, starts;
    }

    function Value(): Volume
      reads this
    {
      Volume(Mul32(bytesPerSector, sectorsPerCluster), Mul32(dataStart, bytesPerSector), fat, image)
    }

    /** The table is valid and every file starts at a usable cluster. */
    predicate Valid()
      reads this
    {
      && ValidFat(Value()) && |fileStarts| == |rootEnts|
      && forall e :: 0 <= e < |fileStarts| ==> Usable(Value(), fileStarts[e])
    }

    /** The text is the first min(cap, n * C) bytes of the n clusters chained from `start`, for every n that
        reaches the cap or the end of the chain, and each byte of it stands in the image in its cluster. */
    ghost predicate Reads(start: uint32, cap: uint32, text: seq<byte>)
      requires Valid() && Usable(Value(), start)
      reads this
    {
      var v := Volume(U32(bytesPerSector * sectorsPerCluster), U32(dataStart * bytesPerSector), fat, image);
      && v == Value()
      && (forall k: nat {:trigger Chain(v, start, k)} :: k > Whole(cap, v.clusterSize) ==>
            && |text| == Min(cap, |Bytes(v, Chain(v, start, k))|)
            && text == Bytes(v, Chain(v, start, k))[..|text|])
      && var ns := Chain(v, start, Whole(cap, v.clusterSize) + 1);
         forall i :: 0 <= i < |text| ==> StandsAt(v, ns, i, text[i])
    }

    lemma ContentReads(start: uint32, cap: uint32)
      requires Valid() && Usable(Value(), start)
      ensures Reads(start, cap, Content(Value(), start, cap))
    {
      var v := Value();
      var text := Content(v, start, cap);
      assert v == Volume(U32(bytesPerSector * sectorsPerCluster), U32(dataStart * bytesPerSector), fat, image);
      hide Usable, ValidFat, Content, Chain, Bytes, Whole, U32, Min, StandsAt;
      forall k: nat {:trigger Chain(v, start, k)} | k > Whole(cap, v.clusterSize)
        ensures |text| == Min(cap, |Bytes(v, Chain(v, start, k))|) && text == Bytes(v, Chain(v, start, k))[..|text|]
      {
        PrefixOfClusters(v, start, cap, k);
      }
      forall i: nat | i < |text| {
        ByteOfContent(v, start, cap, i);
      }
    }

    /** The first entry with a name. */
    function EntryOf(fName: string): (r: Option<nat>)
      reads this
      ensures r.Some? ==> r.value < |rootEnts| && rootEnts[r.value].shortFileName == fName
                          && forall i :: 0 <= i < r.value ==> rootEnts[i].shortFileName != fName
      ensures r.None? ==> forall i :: 0 <= i < |rootEnts| ==> rootEnts[i].shortFileName != fName
    {
      FirstNamed(rootEnts, fName)
    }

    /** The loop over the clusters from `start` on, for at most `cap` bytes. */
    method ReadChain(start: uint32, cap: uint32) returns (text: Option<seq<byte>>, ghost rounds: nat)
      requires Valid() && Usable(Value(), start)
      ensures text == ReadFrom(Value(), start, cap)
      ensures rounds <= Whole(cap, Value().clusterSize) + 1
    {
      rounds := 0;
      ghost var v := Value();
      var clusterSize: uint32 := Mul32(bytesPerSector, sectorsPerCluster);
      var fatOffset: uint32, dataOffset: uint32, lenleft: uint32 := start, Mul32(start, clusterSize), cap;
      var retStr: seq<byte> := [];
      PrependNothing(ReadFrom(v, start, cap));
      hide ValidFat, ReadFrom, Prepend, Cluster, Add32, Mul32;
      while true
        invariant Usable(v, fatOffset)
        invariant dataOffset == Mul32(fatOffset, clusterSize)
        invariant ReadFrom(v, start, cap) == Prepend(retStr, ReadFrom(v, fatOffset, lenleft))
        invariant rounds + Whole(lenleft, clusterSize) == Whole(cap, clusterSize)
        decreases lenleft
      {
        rounds := rounds + 1;
        var position := Add32(Mul32(dataStart, bytesPerSector), dataOffset);
        assert position == v.Position(fatOffset);
        assert position + clusterSize <= |image|;
        var curDataCluster := image[position..position + clusterSize];
        assert curDataCluster == Cluster(v, fatOffset) by { ClusterAt(v, fatOffset); }
        Round(v, retStr, fatOffset, lenleft);
        if lenleft < clusterSize {
          retStr := retStr + curDataCluster[..lenleft];
          return Some(retStr), rounds;
        }
        retStr := retStr + curDataCluster;
        if fat[fatOffset] == 0 { return None, rounds; }
        if fat[fatOffset] >= CHAIN_END { return Some(retStr), rounds; }
        dataOffset := Mul32(fat[fatOffset], clusterSize);
        fatOffset := fat[fatOffset];
        lenleft := lenleft - clusterSize;
      }
    }

    /** Reads a file, for at most the smaller of the length asked for and the stored size in clusters.  It
        fails for an unknown name, and for a known one exactly when a zero entry is met before that cap;
        otherwise the text is the beginning of the chained clusters.  Chains that run in a circle do not hold
        it up. */
    method ReadFromFile(fName: string, length: uint32, ret: seq<byte>)
    returns (ok: bool, text: seq<byte>, ghost rounds: nat)
      requires Valid()
      ensures EntryOf(fName).None? ==> !ok
      ensures EntryOf(fName).Some? ==>
                var e := EntryOf(fName).value;
                var stored := U32(U32(rootEnts[e].size * bytesPerSector) * sectorsPerCluster);
                var start, cap: uint32 := fileStarts[e], Min(length, stored);
                && (ok <==> !MeetsZero(Value(), start, cap))
                && (ok ==> |text| <= length && |text| <= stored && Reads(start, cap, text))
                && rounds <= Whole(cap, Value().clusterSize) + 1
      ensures !ok ==> text == ret
    {
      var entry := 0;
      while entry < |rootEnts| && rootEnts[entry].shortFileName != fName
        invariant 0 <= entry <= |rootEnts|
        invariant forall i :: 0 <= i < entry ==> rootEnts[i].shortFileName != fName
      {
        entry := entry + 1;
      }
      if entry == |rootEnts| { return false, ret, 0; }
      assert EntryOf(fName) == Some(entry);
      var stored := Mul32(Mul32(rootEnts[entry].size, bytesPerSector), sectorsPerCluster);
      assert stored == U32(U32(rootEnts[entry].size * bytesPerSector) * sectorsPerCluster);
      var start, cap: uint32 := fileStarts[entry], if stored < length then stored else length;
      assert cap == Min(length, stored);
      assert Usable(Value(), start);
      ContentReads(start, cap);
      ReadFromRefinesChain(Value(), start, cap);
      assert |Content(Value(), start, cap)| <= cap;
      hide ReadFrom, MeetsZero, Content, Usable, ValidFat, EntryOf, Whole, Reads, Min, U32;
      var read;
      read, rounds := ReadChain(start, cap);
      return read.Some?, if read.Some? then read.value else ret, rounds;
    }
  }

  lemma PrependNothing(r: Option<seq<byte>>)
    ensures Prepend([], r) == r
  {
    if r.Some? { assert [] + r.value == r.value; }
  }

  lemma ClusterAt(v: Volume, n: nat)
    requires Usable(v, n)
    ensures Cluster(v, n) == v.image[v.Position(n)..v.Position(n) + v.clusterSize]
  {
  }

  /** What one round does to the result that is still owed. */
  lemma Round(v: Volume, done: seq<byte>, n: nat, left: nat)
    requires ValidFat(v) && Usable(v, n)
    ensures var owed := Prepend(done, ReadFrom(v, n, left));
            if left < v.clusterSize then owed == Some(done + Cluster(v, n)[..left])
            else if v.fat[n] == 0 then owed == None
            else if v.fat[n] >= CHAIN_END then owed == Some(done + Cluster(v, n))
            else
              && Usable(v, v.fat[n])
              && owed == Prepend(done + Cluster(v, n), ReadFrom(v, v.fat[n], left - v.clusterSize))
  {
    if left >= v.clusterSize && Links(v, n) {
      PrependTwice(done, Cluster(v, n), ReadFrom(v, v.fat[n], left - v.clusterSize));
    }
  }

  lemma PrependTwice(a: seq<byte>, b: seq<byte>, r: Option<seq<byte>>)
    ensures Prepend(a, Prepend(b, r)) == Prepend(a + b, r)
  {
    if r.Some? { assert a + (b + r.value) == (a + b) + r.value; }
  }

  function FirstNamed(entries: seq<DirEntry>, fName: string): (r: Option<nat>)
    ensures r.Some? ==> r.value < |entries| && entries[r.value].shortFileName == fName
                        && forall i :: 0 <= i < r.value ==> entries[i].shortFileName != fName
    ensures r.None? ==> forall i :: 0 <= i < |entries| ==> entries[i].shortFileName != fName
  {
    if entries == [] then None
    else if entries[0].shortFileName == fName then Some(0)
    else match FirstNamed(entries[1..], fName)
      case None => None
      case Some(i) => Some(i + 1)
  }
}
