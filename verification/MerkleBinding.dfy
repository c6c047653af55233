/** When two files share a root: either they are the same, or their two runs contain a SHA-256 collision. */
module MerkleBinding {
  import opened ByteStrings
  import opened Arithmetic
  import opened MerkleSpec

  ghost predicate Collision(sha: Sha, x: Bytes, y: Bytes) {
    x != y && sha(x) == sha(y)
  }

  /** The first index at which two sequences of one length differ. */
  function FirstDiff<T(==)>(a: seq<T>, b: seq<T>): (i: nat)
    requires |a| == |b| && a != b
    ensures i < |a| && a[i] != b[i]
  {
    if a[0] != b[0] then 0
    else
      assert a == [a[0]] + a[1..] && b == [b[0]] + b[1..];
      1 + FirstDiff(a[1..], b[1..])
  }

  lemma PairsDiffer(a: seq<Digest>, b: seq<Digest>)
    requires |a| == |b| && a != b
    ensures Pairs(a) != Pairs(b)
  {
    var i := FirstDiff(a, b);
    var p, q := Pair(a, i / 2), Pair(b, i / 2);
    if i % 2 == 0 {
      assert a[i] == p[..32] && b[i] == q[..32];
    } else {
      assert a[i] == p[32..] && b[i] == q[32..];
    }
    assert Pairs(a)[i / 2] == p && Pairs(b)[i / 2] == q;
  }

  /** Walks both reductions to the first level whose pairs differ and whose hashes agree. */
  function ReduceCollision(sha: Sha, a: seq<Digest>, b: seq<Digest>): (c: (Bytes, Bytes))
    requires |a| == |b| > 0 && a != b && Reduce(sha, a) == Reduce(sha, b)
    ensures Collision(sha, c.0, c.1)
    ensures c.0 in NodeInputs(sha, a) && c.1 in NodeInputs(sha, b)
    decreases |a|
  {
    PairsDiffer(a, b);
    if Level(sha, a) != Level(sha, b) then
      ReduceCollision(sha, Level(sha, a), Level(sha, b))
    else
      var i := FirstDiff(Pairs(a), Pairs(b));
      assert Level(sha, a)[i] == Level(sha, b)[i];
      (Pairs(a)[i], Pairs(b)[i])
  }

  lemma {:induction false} BlocksInjective(f: Bytes, g: Bytes)
    requires Blocks(f) == Blocks(g)
    ensures f == g
    decreases |f|
  {
    assert (|Blocks(f)| > 1 <==> |f| > BLOCK) && (|Blocks(g)| > 1 <==> |g| > BLOCK);
    if f != [] {
      assert Blocks(f)[0] == Blocks(g)[0];
    }
    if |f| > BLOCK {
      assert Blocks(f)[1..] == Blocks(f[BLOCK..]) && Blocks(g)[1..] == Blocks(g[BLOCK..]);
      BlocksInjective(f[BLOCK..], g[BLOCK..]);
      assert f == f[..BLOCK] + f[BLOCK..] && g == g[..BLOCK] + g[BLOCK..];
    }
  }

  /** The collision that two files of equal block count and equal root give away. */
  function FileCollision(sha: Sha, f: Bytes, g: Bytes): (c: (Bytes, Bytes))
    requires f != g && |Blocks(f)| == |Blocks(g)| && Root(sha, f) == Root(sha, g)
    ensures Collision(sha, c.0, c.1)
    ensures c.0 in Inputs(sha, f) && c.1 in Inputs(sha, g)
  {
    if Leaves(sha, f) != Leaves(sha, g) then
      ReduceCollision(sha, Leaves(sha, f), Leaves(sha, g))
    else
      assert Blocks(f) != Blocks(g) by {
        if Blocks(f) == Blocks(g) { BlocksInjective(f, g); }
      }
      var i := FirstDiff(Blocks(f), Blocks(g));
      assert Leaves(sha, f)[i] == Leaves(sha, g)[i];
      (Blocks(f)[i], Blocks(g)[i])
  }

  /**
   Two files of equal block count and equal hexadecimal root are equal, or the collision above, taken
   from what the two runs really hashed, breaks the hash.
   */
  lemma RootBindsFile(sha: Sha, f: Bytes, g: Bytes)
    requires |Blocks(f)| == |Blocks(g)| && Hex(Root(sha, f)) == Hex(Root(sha, g))
    ensures f == g || exists x, y :: x in Inputs(sha, f) && y in Inputs(sha, g) && Collision(sha, x, y)
  {
    HexInjective(Root(sha, f), Root(sha, g));
    if f != g {
      var c := FileCollision(sha, f, g);
      assert Collision(sha, c.0, c.1);
    }
  }

  // ---------------------------------------------------------------- equal depths

  /** The two halves of a perfect list. */
  function Halves(ls: seq<Digest>, d: nat): (h: (seq<Digest>, seq<Digest>))
    requires d >= 1 && |ls| == Pow2(d)
    ensures |h.0| == |h.1| == Pow2(d - 1) && ls == h.0 + h.1
  {
    (ls[..Pow2(d - 1)], ls[Pow2(d - 1)..])
  }

  /** The 64 bytes hashed at the top of a perfect tree. */
  function TopInput(sha: Sha, ls: seq<Digest>, d: nat): Bytes
    requires d >= 1 && |ls| == Pow2(d)
  {
    var left: Bytes, right: Bytes := Tree(sha, Halves(ls, d).0, d - 1), Tree(sha, Halves(ls, d).1, d - 1);
    left + right
  }

  /** Everything a perfect tree hashes, from the top. */
  function TreeInputs(sha: Sha, ls: seq<Digest>, d: nat): seq<Bytes>
    requires |ls| == Pow2(d)
    decreases d
  {
    if d == 0 then []
    else
      [TopInput(sha, ls, d)] + TreeInputs(sha, Halves(ls, d).0, d - 1) + TreeInputs(sha, Halves(ls, d).1, d - 1)
  }

  /** The collision that two different perfect trees of one depth and one root give away. */
  function TreeCollision(sha: Sha, a: seq<Digest>, b: seq<Digest>, d: nat): (c: (Bytes, Bytes))
    requires |a| == |b| == Pow2(d) && a != b && Tree(sha, a, d) == Tree(sha, b, d)
    ensures Collision(sha, c.0, c.1)
    ensures c.0 in TreeInputs(sha, a, d) && c.1 in TreeInputs(sha, b, d)
  {
    if d == 0 then
      assert false;
      ([], [])
    else
      var (al, ar) := Halves(a, d);
      var (bl, br) := Halves(b, d);
      if Tree(sha, al, d - 1) != Tree(sha, bl, d - 1) || Tree(sha, ar, d - 1) != Tree(sha, br, d - 1) then
        var x, y := TopInput(sha, a, d), TopInput(sha, b, d);
        assert x[..32] == Tree(sha, al, d - 1) && x[32..] == Tree(sha, ar, d - 1);
        assert y[..32] == Tree(sha, bl, d - 1) && y[32..] == Tree(sha, br, d - 1);
        (x, y)
      else if al != bl then TreeCollision(sha, al, bl, d - 1)
      else TreeCollision(sha, ar, br, d - 1)
  }

  lemma LevelHalves(sha: Sha, ls: seq<Digest>, d: nat)
    requires d >= 2 && |ls| == Pow2(d)
    ensures Halves(Level(sha, ls), d - 1) == (Level(sha, Halves(ls, d).0), Level(sha, Halves(ls, d).1))
    ensures Pairs(ls) == Pairs(Halves(ls, d).0) + Pairs(Halves(ls, d).1)
  {
    var half := Pow2(d - 1);
    PairsHalves(ls, half);
    assert Level(sha, ls)[..half / 2] == Level(sha, ls[..half]);
    assert Level(sha, ls)[half / 2..] == Level(sha, ls[half..]);
  }

  lemma TopInputByLevel(sha: Sha, ls: seq<Digest>, d: nat)
    requires d >= 2 && |ls| == Pow2(d)
    ensures TopInput(sha, Level(sha, ls), d - 1) == TopInput(sha, ls, d)
  {
    LevelHalves(sha, ls, d);
    TreeBottomUp(sha, Halves(ls, d).0, d - 1);
    TreeBottomUp(sha, Halves(ls, d).1, d - 1);
  }

  /** The same bytes are hashed level by level, from the bottom. */
  lemma {:induction false} TreeInputsByLevel(sha: Sha, ls: seq<Digest>, d: nat, x: Bytes)
    requires d >= 1 && |ls| == Pow2(d)
    ensures x in TreeInputs(sha, ls, d) <==> x in Pairs(ls) || x in TreeInputs(sha, Level(sha, ls), d - 1)
    decreases d
  {
    if d == 1 {
      assert Pairs(ls) == [TopInput(sha, ls, 1)];
    } else {
      LevelHalves(sha, ls, d);
      TopInputByLevel(sha, ls, d);
      TreeInputsByLevel(sha, Halves(ls, d).0, d - 1, x);
      TreeInputsByLevel(sha, Halves(ls, d).1, d - 1, x);
    }
  }

  lemma NodeInputsByLevel(sha: Sha, ds: seq<Digest>, x: Bytes)
    requires |ds| > 1
    ensures x in NodeInputs(sha, ds) <==> x in Pairs(ds) || x in NodeInputs(sha, Level(sha, ds))
  {
  }

  lemma {:induction false} TreeInputsAreNodeInputs(sha: Sha, ls: seq<Digest>, d: nat, x: Bytes)
    requires |ls| == Pow2(d)
    ensures x in TreeInputs(sha, ls, d) <==> x in NodeInputs(sha, ls)
    decreases d
  {
    if d > 0 {
      NodeInputsByLevel(sha, ls, x);
      TreeInputsByLevel(sha, ls, d, x);
      TreeInputsAreNodeInputs(sha, Level(sha, ls), d - 1, x);
    }
  }

  lemma PaddedPairs(ds: seq<Digest>, x: Bytes)
    requires |ds| > 1
    ensures x in Pairs(Padded(ds)) <==> x in Pairs(ds)
  {
    var p, n := Padded(ds), |ds|;
    forall k | 0 <= k < |Pairs(p)|
      ensures Pairs(p)[k] == Pairs(ds)[PadIndex((n + 1) / 2, k)]
    {
      PaddedPair(ds, k);
    }
    DepthIsCeilLog2((n + 1) / 2);
    forall k | 0 <= k < |Pairs(ds)|
      ensures Pairs(ds)[k] == Pairs(p)[k]
    {
      assert k < (n + 1) / 2 <= Pow2(Depth((n + 1) / 2));
    }
  }

  /** Padding adds nothing to what a reduction hashes. */
  lemma {:induction false} PaddedNodeInputs(sha: Sha, ds: seq<Digest>, x: Bytes)
    requires |ds| >= 1
    ensures x in NodeInputs(sha, Padded(ds)) <==> x in NodeInputs(sha, ds)
    decreases |ds|
  {
    if |ds| > 1 {
      PaddedPairs(ds, x);
      PaddedLevel(sha, ds);
      PaddedNodeInputs(sha, Level(sha, ds), x);
    }
  }

  /**
   At equal depth the root stands for the padded list: equal exactly together, up to a collision computed
   from what the two reductions hashed.
   */
  lemma EqualDepthBinding(sha: Sha, a: seq<Digest>, b: seq<Digest>) returns (c: (Bytes, Bytes))
    requires |a| >= 1 && |b| >= 1 && Depth(|a|) == Depth(|b|)
    ensures Padded(a) == Padded(b) ==> Reduce(sha, a) == Reduce(sha, b)
    ensures Reduce(sha, a) == Reduce(sha, b) && Padded(a) != Padded(b) ==>
              Collision(sha, c.0, c.1) && c.0 in NodeInputs(sha, a) && c.1 in NodeInputs(sha, b)
  {
    ReduceIsPerfectTree(sha, a);
    ReduceIsPerfectTree(sha, b);
    c := ([], []);
    if Reduce(sha, a) == Reduce(sha, b) && Padded(a) != Padded(b) {
      var d := Depth(|a|);
      c := TreeCollision(sha, Padded(a), Padded(b), d);
      TreeInputsAreNodeInputs(sha, Padded(a), d, c.0);
      TreeInputsAreNodeInputs(sha, Padded(b), d, c.1);
      PaddedNodeInputs(sha, a, c.0);
      PaddedNodeInputs(sha, b, c.1);
    }
  }

  /** Lists with one padding: the shorter is a prefix of the longer, which then repeats earlier elements. */
  lemma EqualPaddingIsPrefix<T>(a: seq<T>, b: seq<T>)
    requires 1 <= |a| <= |b| && Depth(|a|) == Depth(|b|) && Padded(a) == Padded(b)
    ensures a <= b && forall k | |a| <= k < |b| :: b[k] == a[PadIndex(|a|, k)]
  {
    DepthIsCeilLog2(|b|);
    forall k | 0 <= k < |b|
      ensures b[k] == a[PadIndex(|a|, k)]
    {
      assert Padded(a)[k] == Padded(b)[k];
    }
  }

  // ---------------------------------------------------------------- roots that do not bind

  /** Appending a copy of the last digest to an odd number of at least three digests keeps the root. */
  lemma RepeatedLastLeaf(sha: Sha, ds: seq<Digest>)
    requires |ds| >= 3 && |ds| % 2 == 1
    ensures Reduce(sha, ds + [ds[|ds| - 1]]) == Reduce(sha, ds)
  {
    RepeatedLastPairs(ds);
  }

  lemma RepeatedLastPairs(ds: seq<Digest>)
    requires |ds| % 2 == 1
    ensures Pairs(ds + [ds[|ds| - 1]]) == Pairs(ds)
  {
  }

  lemma {:induction false} BlocksAppend(f: Bytes, tail: Bytes)
    requires |f| % BLOCK == 0 && 0 < |tail| <= BLOCK
    ensures Blocks(f + tail) == Blocks(f) + [tail]
    decreases |f|
  {
    if f == [] {
      assert f + tail == tail;
    } else {
      BlocksAppend(f[BLOCK..], tail);
      assert (f + tail)[..BLOCK] == f[..BLOCK];
      assert (f + tail)[BLOCK..] == f[BLOCK..] + tail;
      if |f| == BLOCK {
        assert f[BLOCK..] == [] && f[..BLOCK] == f;
      }
    }
  }

  /** So appending a copy of its last block to a file of whole blocks, odd in number, keeps its root. */
  lemma RepeatedLastBlock(sha: Sha, f: Bytes)
    requires |f| % BLOCK == 0 && |Blocks(f)| >= 3 && |Blocks(f)| % 2 == 1
    ensures Root(sha, f + Blocks(f)[|Blocks(f)| - 1]) == Root(sha, f)
    ensures |f + Blocks(f)[|Blocks(f)| - 1]| == |f| + BLOCK
  {
    var last := Blocks(f)[|Blocks(f)| - 1];
    LastBlockWhole(f);
    BlocksAppend(f, last);
    var ds := Leaves(sha, f);
    assert Leaves(sha, f + last) == ds + [ds[|ds| - 1]];
    RepeatedLastLeaf(sha, ds);
  }

  lemma {:induction false} LastBlockWhole(f: Bytes)
    requires |f| % BLOCK == 0 && f != []
    ensures |Blocks(f)[|Blocks(f)| - 1]| == BLOCK
    decreases |f|
  {
    if |f| > BLOCK {
      LastBlockWhole(f[BLOCK..]);
    }
  }
}
