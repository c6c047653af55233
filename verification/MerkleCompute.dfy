/** compute_merkle_root: reading the blocks, reducing the levels in place, and printing the root. */
module MerkleCompute {
  import opened ByteStrings
  import opened MerkleSpec
  import opened Memory
  import opened Options

  /** free() of the first n digests that array a points to. */
  method FreeAll(heap: Heap, a: Ptr, n: nat, ghost base: map<Ptr, Digest>,
                 ghost ptrs: seq<Ptr>, ghost vals: seq<Digest>)
    requires heap.Valid() && a in heap.arrays && n <= |heap.arrays[a]| && n <= |ptrs|
    requires heap.arrays[a][..n] == ptrs[..n] && Holds(base, heap.digests, ptrs, vals)
    modifies heap
    ensures heap.Valid() && Holds(base, heap.digests, ptrs[n..], vals[n..])
    ensures heap.arrays == old(heap.arrays) && heap.grants == old(heap.grants)
  {
    for i := 0 to n
      invariant heap.Valid() && heap.arrays == old(heap.arrays) && heap.grants == old(heap.grants)
      invariant Holds(base, heap.digests, ptrs[i..], vals[i..])
    {
      var p := heap.arrays[a][i];
      assert p == ptrs[..n][i] == ptrs[i..][0];
      HoldsDrop(base, heap.digests, ptrs[i..], vals[i..]);
      assert ptrs[i..][1..] == ptrs[i + 1..] && vals[i..][1..] == vals[i + 1..];
      heap.FreeDigest(p);
    }
  }

  /**
   Appends one digest to the growing array at a. That takes two requests, a digest buffer and the array;
   when either is refused the heap is as before.
   */
  method StoreLeaf(heap: Heap, a: Ptr, hash: Digest, ghost base: map<Ptr, Digest>, ghost arrays: map<Ptr, seq<Ptr>>,
                   bcount: nat, ghost ptrs: seq<Ptr>, ghost vals: seq<Digest>)
    returns (b: Ptr, ghost ptr: Ptr)
    requires heap.Valid() && Holds(base, heap.digests, ptrs, vals) && |ptrs| == bcount
    requires Stored(arrays, heap.arrays, a, ptrs)
    modifies heap
    ensures heap.Valid()
    ensures b == 0 <==> old(heap.grants) < 2
    ensures b == 0 ==> heap.digests == old(heap.digests) && heap.arrays == old(heap.arrays)
    ensures b != 0 ==>
              && heap.grants == old(heap.grants) - 2
              && Holds(base, heap.digests, ptrs + [ptr], vals + [hash])
              && Stored(arrays, heap.arrays, b, ptrs + [ptr])
  {
    ghost var live := heap.digests;
    var hcopy := heap.NewDigest(hash);
    if hcopy == 0 {
      return 0, 0;
    }
    b := heap.GrowArray(a, bcount + 1);
    if b == 0 {
      heap.FreeDigest(hcopy);
      assert heap.digests == live;
      return 0, 0;
    }
    heap.SetCell(b, bcount, hcopy);
    HoldsAdd(base, live, ptrs, vals, hcopy, hash);
    assert (ptrs + Nulls(1))[bcount := hcopy] == ptrs + [hcopy];
    return b, hcopy;
  }

  /** Besides the arrays of base there is one, at a, holding ptrs; or none while ptrs is empty. */
  ghost predicate Stored(base: map<Ptr, seq<Ptr>>, arrays: map<Ptr, seq<Ptr>>, a: Ptr, ptrs: seq<Ptr>) {
    if ptrs == [] then a == 0 && arrays == base
    else a != 0 && a !in base && arrays == base[a := ptrs]
  }

  /** The first bcount blocks have been read and hashed, and the file is at pos. */
  ghost predicate ReadTo(file: Bytes, pos: nat, bcount: nat, hashed: seq<Bytes>) {
    && pos <= |file| && bcount <= |Blocks(file)|
    && hashed == Blocks(file)[..bcount]
    && Blocks(file)[bcount..] == Blocks(file[pos..])
  }

  lemma ReadStart(file: Bytes)
    ensures ReadTo(file, 0, 0, [])
  {
  }

  lemma ReadEnd(file: Bytes, bcount: nat, hashed: seq<Bytes>)
    requires ReadTo(file, |file|, bcount, hashed)
    ensures bcount == |Blocks(file)| && hashed == Blocks(file)
  {
  }

  /** One fread: the bytes from pos up to the buffer size are the next block. */
  method ReadBlock(file: Bytes, pos: nat, ghost bcount: nat, ghost hashed: seq<Bytes>) returns (buf: Bytes)
    requires pos < |file| && ReadTo(file, pos, bcount, hashed)
    ensures 0 < |buf| <= |file| - pos
    ensures bcount < |Blocks(file)| && buf == Blocks(file)[bcount]
    ensures ReadTo(file, pos + |buf|, bcount + 1, hashed + [buf])
  {
    var r := if |file| - pos < BLOCK then |file| - pos else BLOCK;
    buf := file[pos..pos + r];
    BlockAt(file, pos, bcount);
  }

  /** The digests of the first bcount blocks are on the heap, reached through the array at blocks. */
  ghost predicate Kept(base: map<Ptr, Digest>, arrays: map<Ptr, seq<Ptr>>,
                       digests: map<Ptr, Digest>, live: map<Ptr, seq<Ptr>>,
                       blocks: Ptr, ptrs: seq<Ptr>, leaves: seq<Digest>, bcount: nat)
  {
    && bcount <= |leaves| && |ptrs| == bcount
    && Holds(base, digests, ptrs, leaves[..bcount])
    && Stored(arrays, live, blocks, ptrs)
  }

  /** Stores leaf bcount; on a refused request nothing changes. */
  method KeepLeaf(heap: Heap, blocks: Ptr, hash: Digest, bcount: nat, ghost base: map<Ptr, Digest>,
                  ghost arrays: map<Ptr, seq<Ptr>>, ghost ptrs: seq<Ptr>, ghost leaves: seq<Digest>)
    returns (b: Ptr, ghost newPtrs: seq<Ptr>)
    requires heap.Valid() && Kept(base, arrays, heap.digests, heap.arrays, blocks, ptrs, leaves, bcount)
    requires bcount < |leaves| && leaves[bcount] == hash
    modifies heap
    ensures heap.Valid()
    ensures b == 0 <==> old(heap.grants) < 2
    ensures b == 0 ==> Kept(base, arrays, heap.digests, heap.arrays, blocks, ptrs, leaves, bcount)
    ensures b != 0 ==>
              && heap.grants == old(heap.grants) - 2
              && Kept(base, arrays, heap.digests, heap.arrays, b, newPtrs, leaves, bcount + 1)
  {
    ghost var ptr;
    b, ptr := StoreLeaf(heap, blocks, hash, base, arrays, bcount, ptrs, leaves[..bcount]);
    newPtrs := ptrs + [ptr];
    assert leaves[..bcount + 1] == leaves[..bcount] + [hash];
  }

  /**
   The read loop, two requests for every leaf. It stores as many leaves as the grants allow; when a request is
   refused the digests stored so far stay behind.
   */
  method ReadLeaves(sha: Sha, heap: Heap, file: Bytes)
    returns (ok: bool, blocks: Ptr, bcount: nat, ghost ptrs: seq<Ptr>, ghost hashed: seq<Bytes>)
    requires heap.Valid()
    modifies heap
    ensures heap.Valid() && (ok <==> 2 * |Blocks(file)| <= old(heap.grants))
    ensures ok ==> hashed == Blocks(file) && heap.grants == old(heap.grants) - 2 * |Blocks(file)|
    ensures bcount == if ok then |Blocks(file)| else old(heap.grants) / 2
    ensures Kept(old(heap.digests), old(heap.arrays), heap.digests, heap.arrays,
                 blocks, ptrs, Leaves(sha, file), bcount)
  {
    blocks, bcount, ptrs, hashed := 0, 0, [], [];
    var pos := 0;
    ghost var base, arrays, leaves := heap.digests, heap.arrays, Leaves(sha, file);
    HoldsNone(base, base);
    ReadStart(file);
    assert leaves[..0] == [];
    while pos < |file|
      invariant heap.Valid() && heap.grants == old(heap.grants) - 2 * bcount
      invariant pos <= |file| && ReadTo(file, pos, bcount, hashed)
      invariant Kept(base, arrays, heap.digests, heap.arrays, blocks, ptrs, leaves, bcount)
      decreases |file| - pos
    {
      var buf := ReadBlock(file, pos, bcount, hashed);
      hashed, pos := hashed + [buf], pos + |buf|;
      var tmp;
      ghost var newPtrs;
      tmp, newPtrs := KeepLeaf(heap, blocks, sha(buf), bcount, base, arrays, ptrs, leaves);
      if tmp == 0 {
        return false, blocks, bcount, ptrs, hashed;
      }
      blocks, bcount, ptrs := tmp, bcount + 1, newPtrs;
    }
    ReadEnd(file, bcount, hashed);
    return true, blocks, bcount, ptrs, hashed;
  }

  lemma BlockAt(file: Bytes, pos: nat, k: nat)
    requires pos < |file| && k <= |Blocks(file)| && Blocks(file)[k..] == Blocks(file[pos..])
    ensures k < |Blocks(file)|
    ensures var r := if |file| - pos < BLOCK then |file| - pos else BLOCK;
            && Blocks(file)[k] == file[pos..pos + r]
            && Blocks(file)[k + 1..] == Blocks(file[pos + r..])
  {
    var rest := file[pos..];
    var r := if |file| - pos < BLOCK then |file| - pos else BLOCK;
    assert Blocks(rest) != [] && Blocks(file)[k] == Blocks(file)[k..][0] == Blocks(rest)[0];
    assert rest[..r] == file[pos..pos + r] && rest[r..] == file[pos + r..];
    assert rest[..r] == Blocks(rest)[0];
    assert Blocks(file)[k..][1..] == Blocks(file)[k + 1..];
    assert Blocks(rest)[1..] == Blocks(rest[r..]);
  }

  // ---------------------------------------------------------------- one round of the reduction

  /** Hashes pair i of the current level; reads only live buffers. */
  method HashPair(sha: Sha, heap: Heap, blocks: Ptr, bcount: nat, i: nat, ghost base: map<Ptr, Digest>,
                  ghost ptrs: seq<Ptr>, ghost vals: seq<Digest>, ghost more: seq<Ptr>, ghost moreVals: seq<Digest>)
    returns (hash: Digest, ghost hashed: Bytes)
    requires |ptrs| == |vals| == bcount && 2 * i < bcount
    requires blocks in heap.arrays && heap.arrays[blocks] == ptrs
    requires Holds(base, heap.digests, ptrs + more, vals + moreVals)
    ensures hashed == Pair(vals, i) && hash == sha(Pair(vals, i))
  {
    var a := heap.arrays[blocks][i * 2];
    var b := if i * 2 + 1 < bcount then heap.arrays[blocks][i * 2 + 1] else heap.arrays[blocks][i * 2];
    assert a == (ptrs + more)[2 * i] && (vals + moreVals)[2 * i] == vals[2 * i];
    assert 2 * i + 1 < bcount ==> b == (ptrs + more)[2 * i + 1] && (vals + moreVals)[2 * i + 1] == vals[2 * i + 1];
    var left: Bytes, right: Bytes := heap.digests[a], heap.digests[b];
    var concat := left + right;
    hash, hashed := sha(concat), concat;
  }

  /** Frees the digests and the array of a finished or abandoned level, which come first in ptrs. */
  method FreeLevel(heap: Heap, a: Ptr, n: nat, ghost base: map<Ptr, Digest>,
                   ghost ptrs: seq<Ptr>, ghost vals: seq<Digest>, ghost more: seq<Ptr>, ghost moreVals: seq<Digest>)
    requires heap.Valid() && |ptrs| == |vals| == n
    requires a in heap.arrays && n <= |heap.arrays[a]| && heap.arrays[a][..n] == ptrs
    requires Holds(base, heap.digests, ptrs + more, vals + moreVals)
    modifies heap
    ensures heap.Valid() && Holds(base, heap.digests, more, moreVals)
    ensures heap.arrays == old(heap.arrays) - {a} && heap.grants == old(heap.grants)
  {
    assert (ptrs + more)[..n] == ptrs;
    assert (ptrs + more)[n..] == more && (vals + moreVals)[n..] == moreVals;
    FreeAll(heap, a, n, base, ptrs + more, vals + moreVals);
    heap.FreeArray(a);
  }

  /** Midway through a round: the level at blocks is whole, the one at next filled up to |nptrs|. */
  ghost predicate InRound(base: map<Ptr, Digest>, arrays: map<Ptr, seq<Ptr>>,
                          digests: map<Ptr, Digest>, live: map<Ptr, seq<Ptr>>, blocks: Ptr, next: Ptr, pairs: nat,
                          ptrs: seq<Ptr>, vals: seq<Digest>, nptrs: seq<Ptr>, nvals: seq<Digest>)
  {
    && blocks !in arrays && next !in arrays && blocks != next && next != 0
    && |ptrs| == |vals| && |nptrs| == |nvals| <= pairs
    && live == arrays[blocks := ptrs][next := nptrs + Nulls(pairs - |nptrs|)]
    && Holds(base, digests, ptrs + nptrs, vals + nvals)
  }

  /** The error path inside a round: both levels go. */
  method Abandon(heap: Heap, blocks: Ptr, bcount: nat, next: Ptr, i: nat, ghost base: map<Ptr, Digest>,
                 ghost arrays: map<Ptr, seq<Ptr>>, ghost pairs: nat,
                 ghost ptrs: seq<Ptr>, ghost vals: seq<Digest>, ghost nptrs: seq<Ptr>, ghost nvals: seq<Digest>)
    requires heap.Valid() && |ptrs| == bcount && |nptrs| == i
    requires InRound(base, arrays, heap.digests, heap.arrays, blocks, next, pairs, ptrs, vals, nptrs, nvals)
    modifies heap
    ensures heap.Valid() && heap.digests == base && heap.arrays == arrays && heap.grants == old(heap.grants)
  {
    FreeLevel(heap, blocks, bcount, base, ptrs, vals, nptrs, nvals);
    assert nptrs + [] == nptrs && nvals + [] == nvals;
    FreeLevel(heap, next, i, base, nptrs, nvals, [], []);
    HoldsNone(base, heap.digests);
    assert heap.arrays == arrays;
  }

  /** Hashes pair i into the next level. On a refused request everything the reduction owns is freed. */
  method RoundStep(sha: Sha, heap: Heap, blocks: Ptr, bcount: nat, next: Ptr, i: nat, ghost base: map<Ptr, Digest>,
                   ghost arrays: map<Ptr, seq<Ptr>>, ghost pairs: nat,
                   ghost ptrs: seq<Ptr>, ghost vals: seq<Digest>, ghost nptrs: seq<Ptr>, ghost nvals: seq<Digest>)
    returns (ok: bool, ghost ptr: Ptr, ghost hashed: Bytes)
    requires heap.Valid() && |ptrs| == bcount && |nptrs| == i < pairs && 2 * i < bcount
    requires InRound(base, arrays, heap.digests, heap.arrays, blocks, next, pairs, ptrs, vals, nptrs, nvals)
    modifies heap
    ensures heap.Valid()
    ensures ok <==> old(heap.grants) >= 1
    ensures !ok ==> heap.digests == base && heap.arrays == arrays
    ensures ok ==>
              && heap.grants == old(heap.grants) - 1
              && hashed == Pair(vals, i)
              && InRound(base, arrays, heap.digests, heap.arrays, blocks, next, pairs,
                         ptrs, vals, nptrs + [ptr], nvals + [sha(hashed)])
  {
    var hash;
    hash, hashed := HashPair(sha, heap, blocks, bcount, i, base, ptrs, vals, nptrs, nvals);
    ghost var live := heap.digests;
    var hcopy := heap.NewDigest(hash);
    if hcopy == 0 {
      Abandon(heap, blocks, bcount, next, i, base, arrays, pairs, ptrs, vals, nptrs, nvals);
      return false, 0, hashed;
    }
    HoldsAdd(base, live, ptrs + nptrs, vals + nvals, hcopy, hash);
    assert (nptrs + Nulls(pairs - i))[i := hcopy] == nptrs + [hcopy] + Nulls(pairs - (i + 1));
    heap.SetCell(next, i, hcopy);
    assert ptrs + nptrs + [hcopy] == ptrs + (nptrs + [hcopy]);
    assert vals + nvals + [hash] == vals + (nvals + [hash]);
    return true, hcopy, hashed;
  }

  /** Hashes every pair of a level into the next one. */
  method FillLevel(sha: Sha, heap: Heap, blocks: Ptr, bcount: nat, next: Ptr, pairs: nat, ghost base: map<Ptr, Digest>,
                   ghost arrays: map<Ptr, seq<Ptr>>, ghost ptrs: seq<Ptr>, ghost vals: seq<Digest>)
    returns (ok: bool, ghost nptrs: seq<Ptr>, ghost hashed: seq<Bytes>)
    requires heap.Valid() && bcount > 1 && |ptrs| == |vals| == bcount && pairs == (bcount + 1) / 2
    requires InRound(base, arrays, heap.digests, heap.arrays, blocks, next, pairs, ptrs, vals, [], [])
    modifies heap
    ensures heap.Valid()
    ensures ok <==> old(heap.grants) >= pairs
    ensures !ok ==> heap.digests == base && heap.arrays == arrays
    ensures ok ==>
              && heap.grants == old(heap.grants) - pairs
              && hashed == Pairs(vals)
              && InRound(base, arrays, heap.digests, heap.arrays, blocks, next, pairs,
                         ptrs, vals, nptrs, Level(sha, vals))
  {
    nptrs, hashed := [], [];
    ghost var level := Level(sha, vals);
    assert level[..0] == [];
    for i := 0 to pairs
      invariant heap.Valid() && heap.grants == old(heap.grants) - i
      invariant |nptrs| == i && hashed == Pairs(vals)[..i]
      invariant InRound(base, arrays, heap.digests, heap.arrays, blocks, next, pairs, ptrs, vals, nptrs, level[..i])
    {
      ghost var ptr, input;
      ok, ptr, input :=
        RoundStep(sha, heap, blocks, bcount, next, i, base, arrays, pairs, ptrs, vals, nptrs, level[..i]);
      if !ok {
        return;
      }
      assert level[..i + 1] == level[..i] + [sha(input)];
      nptrs, hashed := nptrs + [ptr], hashed + [input];
    }
    assert level[..pairs] == level;
    ok := true;
  }

  /** Replaces a level by the next one. On a refused request everything it owns is freed. */
  method ReduceRound(sha: Sha, heap: Heap, blocks: Ptr, bcount: nat, ghost base: map<Ptr, Digest>,
                     ghost arrays: map<Ptr, seq<Ptr>>, ghost ptrs: seq<Ptr>, ghost vals: seq<Digest>)
    returns (next: Ptr, ghost nptrs: seq<Ptr>, ghost hashed: seq<Bytes>)
    requires heap.Valid() && bcount > 1 && |ptrs| == |vals| == bcount
    requires Holds(base, heap.digests, ptrs, vals) && Stored(arrays, heap.arrays, blocks, ptrs)
    modifies heap
    ensures heap.Valid()
    ensures next == 0 <==> old(heap.grants) < 1 + (bcount + 1) / 2
    ensures next == 0 ==> heap.digests == base && heap.arrays == arrays
    ensures next != 0 ==>
              && heap.grants == old(heap.grants) - 1 - (bcount + 1) / 2
              && hashed == Pairs(vals)
              && Holds(base, heap.digests, nptrs, Level(sha, vals))
              && Stored(arrays, heap.arrays, next, nptrs)
  {
    nptrs, hashed := [], [];
    assert ptrs + nptrs == ptrs && vals + [] == vals;
    var pairs := (bcount + 1) / 2;
    next := heap.NewArray(pairs);
    if next == 0 {
      FreeLevel(heap, blocks, bcount, base, ptrs, vals, [], []);
      HoldsNone(base, heap.digests);
      assert heap.arrays == arrays;
      return;
    }
    assert nptrs + Nulls(pairs) == Nulls(pairs);
    var ok;
    ok, nptrs, hashed := FillLevel(sha, heap, blocks, bcount, next, pairs, base, arrays, ptrs, vals);
    if !ok {
      return 0, nptrs, hashed;
    }
    assert nptrs + Nulls(0) == nptrs;
    FreeLevel(heap, blocks, bcount, base, ptrs, vals, nptrs, Level(sha, vals));
    assert heap.arrays == arrays[next := nptrs];
  }

  // ---------------------------------------------------------------- the whole computation

  /** sprintf of "%02x" for each byte of the digest, and the terminating NUL. */
  method PrintHex(d: Digest, out: array<char>)
    requires out.Length >= 65
    modifies out
    ensures out[..64] == Hex(d) && out[64] == '\0'
    ensures out[65..] == old(out[65..])
  {
    for i := 0 to 32
      invariant forall k | 0 <= k < 2 * i :: out[k] == Hex(d)[k]
      invariant out[65..] == old(out[65..])
    {
      out[i * 2] := HexDigit(d[i] / 16);
      out[i * 2 + 1] := HexDigit(d[i] % 16);
    }
    out[64] := '\0';
  }

  /** The loop over levels, and the release of the last one: on success d is the root and nothing is left behind. */
  method ReduceAll(sha: Sha, heap: Heap, firstBlocks: Ptr, firstCount: nat, ghost base: map<Ptr, Digest>,
                   ghost arrays: map<Ptr, seq<Ptr>>, ghost firstPtrs: seq<Ptr>, ghost leaves: seq<Digest>)
    returns (ok: bool, d: Digest, ghost hashed: seq<Bytes>, ghost rounds: nat)
    requires heap.Valid() && |firstPtrs| == |leaves| == firstCount > 0
    requires Holds(base, heap.digests, firstPtrs, leaves) && Stored(arrays, heap.arrays, firstBlocks, firstPtrs)
    modifies heap
    ensures heap.Valid() && (ok <==> old(heap.grants) >= NodeRequests(firstCount))
    ensures heap.digests == base && heap.arrays == arrays
    ensures ok ==> d == Reduce(sha, leaves) && hashed == NodeInputs(sha, leaves) && rounds == Depth(firstCount)
  {
    hashed, rounds, d := [], 0, seq(32, _ => 0);
    var blocks, bcount := firstBlocks, firstCount;
    ghost var ptrs, vals := firstPtrs, leaves;
    while bcount > 1
      invariant heap.Valid()
      invariant old(heap.grants) - heap.grants == NodeRequests(firstCount) - NodeRequests(bcount)
      invariant |ptrs| == |vals| == bcount > 0
      invariant Holds(base, heap.digests, ptrs, vals) && Stored(arrays, heap.arrays, blocks, ptrs)
      invariant Reduce(sha, leaves) == Reduce(sha, vals)
      invariant NodeInputs(sha, leaves) == hashed + NodeInputs(sha, vals)
      invariant Depth(firstCount) == rounds + Depth(bcount)
      decreases bcount
    {
      var pairs := (bcount + 1) / 2;
      var next;
      ghost var nptrs, inputs;
      next, nptrs, inputs := ReduceRound(sha, heap, blocks, bcount, base, arrays, ptrs, vals);
      if next == 0 {
        return false, d, hashed, rounds;
      }
      ghost var level := Level(sha, vals);
      assert hashed + (inputs + NodeInputs(sha, level)) == hashed + inputs + NodeInputs(sha, level);
      ptrs, vals, hashed, rounds := nptrs, level, hashed + inputs, rounds + 1;
      blocks, bcount := next, pairs;
    }
    d := TakeRoot(heap, blocks, base, arrays, ptrs, vals);
    ok := true;
  }

  /** Reads the last digest and frees it and its array. */
  method TakeRoot(heap: Heap, blocks: Ptr, ghost base: map<Ptr, Digest>, ghost arrays: map<Ptr, seq<Ptr>>,
                  ghost ptrs: seq<Ptr>, ghost vals: seq<Digest>) returns (d: Digest)
    requires heap.Valid() && |ptrs| == |vals| == 1
    requires Holds(base, heap.digests, ptrs, vals) && Stored(arrays, heap.arrays, blocks, ptrs)
    modifies heap
    ensures heap.Valid() && heap.digests == base && heap.arrays == arrays && heap.grants == old(heap.grants)
    ensures d == vals[0]
  {
    var root := heap.arrays[blocks][0];
    d := heap.digests[root];
    HoldsDrop(base, heap.digests, ptrs, vals);
    heap.FreeDigest(root);
    assert ptrs[1..] == [] && vals[1..] == [];
    HoldsNone(base, heap.digests);
    heap.FreeArray(blocks);
    assert heap.arrays == arrays;
  }

  /** What a read loop that stored the first n leaves and then failed leaves behind: them and their array. */
  ghost predicate Leaked(base: map<Ptr, Digest>, arrays: map<Ptr, seq<Ptr>>, digests: map<Ptr, Digest>,
                         live: map<Ptr, seq<Ptr>>, leaves: seq<Digest>, n: nat)
  {
    exists blocks, ptrs :: Kept(base, arrays, digests, live, blocks, ptrs, leaves, n)
  }

  /** That is n digests and an array more than before; nothing when n is 0. */
  lemma LeakedSize(base: map<Ptr, Digest>, arrays: map<Ptr, seq<Ptr>>, digests: map<Ptr, Digest>,
                   live: map<Ptr, seq<Ptr>>, leaves: seq<Digest>, n: nat)
    requires Leaked(base, arrays, digests, live, leaves, n)
    ensures |digests| == |base| + n && |live| == |arrays| + (if n == 0 then 0 else 1)
    ensures n == 0 <==> digests == base && live == arrays
  {
    var blocks, ptrs :| Kept(base, arrays, digests, live, blocks, ptrs, leaves, n);
    HoldsSize(base, digests, ptrs, leaves[..n]);
    if n == 0 {
      assert ptrs == [] && leaves[..n] == [];
      HoldsNone(base, digests);
    } else {
      assert live.Keys == arrays.Keys + {blocks};
      assert |live.Keys| == |arrays.Keys| + 1;
    }
  }

  /** How many leaves a computation that is granted g requests leaves behind. */
  function LeakedLeaves(n: nat, g: nat): nat {
    if g < 2 * n then g / 2 else 0
  }

  /**
   file is None when it cannot be opened. The result is 0 with the root printed, or -1 with out untouched.
   hashed is everything hashed; rounds counts levels. With n blocks and g requests granted before the first
   refusal, the computation succeeds exactly when g covers two requests a leaf and those of the reduction, and
   it leaks exactly when 2 <= g < 2 * n.
   */
  method ComputeMerkleRoot(sha: Sha, heap: Heap, file: Option<Bytes>, out: array?<char>)
    returns (rc: int, ghost hashed: seq<Bytes>, ghost rounds: nat)
    requires heap.Valid() && (out != null ==> out.Length >= 65)
    modifies heap, out
    ensures heap.Valid()
    ensures rc == 0 || rc == -1
    ensures rc == 0 <==> out != null && file.Some? &&
                         var n := |Blocks(file.value)|; old(heap.grants) >= 2 * n + NodeRequests(n)
    ensures rc == -1 && out != null ==> out[..] == old(out[..])
    ensures rc == 0 ==> out[..64] == Hex(Root(sha, file.value)) && out[64] == '\0' && out[65..] == old(out[65..])
    ensures rc == 0 ==> hashed == Inputs(sha, file.value) && rounds == Depth(|Blocks(file.value)|)
    ensures out == null || file.None? ==> heap.digests == old(heap.digests) && heap.arrays == old(heap.arrays)
    ensures out != null && file.Some? ==>
              Leaked(old(heap.digests), old(heap.arrays), heap.digests, heap.arrays, Leaves(sha, file.value),
                     LeakedLeaves(|Blocks(file.value)|, old(heap.grants)))
    ensures out != null && file.Some? ==>
              (heap.digests != old(heap.digests) || heap.arrays != old(heap.arrays) <==>
               2 <= old(heap.grants) < 2 * |Blocks(file.value)|)
  {
    hashed, rounds := [], 0;
    if file.None? || out == null {
      return -1, hashed, rounds;
    }
    ghost var base, arrays := heap.digests, heap.arrays;
    var ok, blocks, bcount;
    ghost var ptrs;
    ok, blocks, bcount, ptrs, hashed := ReadLeaves(sha, heap, file.value);
    ghost var leaves := Leaves(sha, file.value);
    if !ok {
      LeaksExactlyWhileReading(base, arrays, heap.digests, heap.arrays, leaves, old(heap.grants));
      return -1, hashed, rounds;
    }
    if bcount == 0 {
      LeaksExactlyWhileReading(base, arrays, heap.digests, heap.arrays, leaves, 0);
      PrintHex(sha([]), out);
      return 0, [[]], rounds;
    }
    assert leaves[..bcount] == leaves;
    var root;
    ghost var nodes;
    ok, root, nodes, rounds := ReduceAll(sha, heap, blocks, bcount, base, arrays, ptrs, leaves);
    hashed := hashed + nodes;
    NothingKept(base, arrays, leaves);
    if !ok {
      return -1, hashed, rounds;
    }
    PrintHex(root, out);
    return 0, hashed, rounds;
  }

  lemma NothingKept(base: map<Ptr, Digest>, arrays: map<Ptr, seq<Ptr>>, leaves: seq<Digest>)
    ensures Leaked(base, arrays, base, arrays, leaves, 0)
  {
    HoldsNone(base, base);
    assert leaves[..0] == [];
    assert Kept(base, arrays, base, arrays, 0, [], leaves, 0);
  }

  /** Memory is left behind exactly when a request is refused while reading and a leaf has been stored before. */
  lemma LeaksExactlyWhileReading(base: map<Ptr, Digest>, arrays: map<Ptr, seq<Ptr>>, digests: map<Ptr, Digest>,
                                 live: map<Ptr, seq<Ptr>>, leaves: seq<Digest>, g: nat)
    requires Leaked(base, arrays, digests, live, leaves, LeakedLeaves(|leaves|, g))
    ensures digests != base || live != arrays <==> 2 <= g < 2 * |leaves|
    ensures |digests| == |base| + LeakedLeaves(|leaves|, g)
  {
    LeakedSize(base, arrays, digests, live, leaves, LeakedLeaves(|leaves|, g));
  }
}
