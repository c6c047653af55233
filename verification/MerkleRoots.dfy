/** Exactly which files have the same Merkle root, short of a SHA-256 collision. */
module MerkleRoots {
  import opened ByteStrings
  import opened Arithmetic
  import opened MerkleSpec
  import opened MerkleBinding

  /** Something the one run hashed collides with something the other hashed. */
  ghost predicate Colliding(sha: Sha, xs: seq<Bytes>, ys: seq<Bytes>) {
    exists x, y :: x in xs && y in ys && Collision(sha, x, y)
  }

  /** The 64 bytes that the root of a file of two or more blocks is the hash of. */
  function RootInput(sha: Sha, file: Bytes): Bytes
    requires |Blocks(file)| >= 2
  {
    TopInput(sha, Padded(Leaves(sha, file)), Depth(|Blocks(file)|))
  }

  /**
   What the root cannot tell apart: files of one depth whose padded block lists are the same, and a file of
   two or more blocks from the one-block file that consists of the input of its root. The empty file is apart.
   */
  predicate SameToRoot(sha: Sha, f: Bytes, g: Bytes) {
    if f == [] || g == [] then f == g
    else if Depth(|Blocks(f)|) == Depth(|Blocks(g)|) then Padded(Blocks(f)) == Padded(Blocks(g))
    else if Depth(|Blocks(f)|) < Depth(|Blocks(g)|) then f == RootInput(sha, g)
    else g == RootInput(sha, f)
  }

  lemma RootOfInput(sha: Sha, file: Bytes)
    requires |Blocks(file)| >= 2
    ensures |RootInput(sha, file)| == 64 && Root(sha, file) == sha(RootInput(sha, file))
  {
    ReduceIsPerfectTree(sha, Leaves(sha, file));
  }

  /** The root of a file of up to 4096 bytes, the empty one included, is its hash. */
  lemma OneBlock(sha: Sha, file: Bytes)
    requires |file| <= 4096
    ensures Root(sha, file) == sha(file) && (file != [] ==> Blocks(file) == [file])
  {
    if file != [] {
      assert Leaves(sha, file) == [sha(file)];
    }
  }

  /** Different block counts do not bind: the root input of a file of two or more blocks is a file with that root. */
  lemma NodeIsAFile(sha: Sha, file: Bytes)
    requires |Blocks(file)| >= 2
    ensures |RootInput(sha, file)| == 64 && Root(sha, RootInput(sha, file)) == Root(sha, file)
    ensures RootInput(sha, file) in Inputs(sha, file)
  {
    RootOfInput(sha, file);
    OneBlock(sha, RootInput(sha, file));
    var ds := Leaves(sha, file);
    InNodeInputs(sha, ds, RootInput(sha, file));
  }

  /** What the padded tree hashes, the reduction hashes. */
  lemma InNodeInputs(sha: Sha, ds: seq<Digest>, x: Bytes)
    requires |ds| >= 1
    ensures x in TreeInputs(sha, Padded(ds), Depth(|ds|)) <==> x in NodeInputs(sha, ds)
  {
    TreeInputsAreNodeInputs(sha, Padded(ds), Depth(|ds|), x);
    PaddedNodeInputs(sha, ds, x);
  }

  lemma LeavesPad(sha: Sha, file: Bytes, k: nat)
    requires file != [] && k < Pow2(Depth(|Blocks(file)|))
    ensures Padded(Leaves(sha, file))[k] == sha(Padded(Blocks(file))[k])
    ensures Padded(Blocks(file))[k] in Inputs(sha, file)
  {
  }

  /** Without a collision among the leaf hashes, equal padded digests are those of equal padded blocks. */
  lemma PaddedLeaves(sha: Sha, f: Bytes, g: Bytes)
    requires f != [] && g != [] && Depth(|Blocks(f)|) == Depth(|Blocks(g)|)
    ensures Padded(Blocks(f)) == Padded(Blocks(g)) ==> Padded(Leaves(sha, f)) == Padded(Leaves(sha, g))
    ensures !Colliding(sha, Inputs(sha, f), Inputs(sha, g)) && Padded(Leaves(sha, f)) == Padded(Leaves(sha, g)) ==>
              Padded(Blocks(f)) == Padded(Blocks(g))
  {
    forall k: nat | k < Pow2(Depth(|Blocks(f)|))
      ensures Padded(Leaves(sha, f))[k] == sha(Padded(Blocks(f))[k])
      ensures Padded(Leaves(sha, g))[k] == sha(Padded(Blocks(g))[k])
      ensures !Colliding(sha, Inputs(sha, f), Inputs(sha, g)) && Padded(Leaves(sha, f)) == Padded(Leaves(sha, g)) ==>
                Padded(Blocks(f))[k] == Padded(Blocks(g))[k]
    {
      LeavesPad(sha, f, k);
      LeavesPad(sha, g, k);
      var x, y := Padded(Blocks(f))[k], Padded(Blocks(g))[k];
      assert Collision(sha, x, y) ==> Colliding(sha, Inputs(sha, f), Inputs(sha, g));
    }
  }

  /** Such files do have the same root, whatever the hash. */
  lemma SameToRootSuffices(sha: Sha, f: Bytes, g: Bytes)
    requires SameToRoot(sha, f, g)
    ensures Root(sha, f) == Root(sha, g)
  {
    if f != [] && g != [] {
      if Depth(|Blocks(f)|) == Depth(|Blocks(g)|) {
        PaddedLeaves(sha, f, g);
        var c := EqualDepthBinding(sha, Leaves(sha, f), Leaves(sha, g));
      } else if Depth(|Blocks(f)|) < Depth(|Blocks(g)|) {
        NodeIsAFile(sha, g);
      } else {
        NodeIsAFile(sha, f);
      }
    }
  }

  /**
   Along the leftmost path of the shallower of two trees with one root: without a collision the deeper tree
   hashes 64 bytes into the shallower one's first leaf, at its top if that leaf is all there is.
   */
  lemma {:induction false} FirstLeafIsANode(sha: Sha, a: seq<Digest>, m: nat, b: seq<Digest>, n: nat) returns (x: Bytes)
    requires m < n && |a| == Pow2(m) && |b| == Pow2(n) && Tree(sha, a, m) == Tree(sha, b, n)
    requires !Colliding(sha, TreeInputs(sha, a, m), TreeInputs(sha, b, n))
    ensures |x| == 64 && x in TreeInputs(sha, b, n) && sha(x) == a[0]
    ensures m == 0 ==> x == TopInput(sha, b, n)
    decreases m
  {
    x := TopInput(sha, b, n);
    if m > 0 {
      var al, bl := Halves(a, m).0, Halves(b, n).0;
      var y := TopInput(sha, a, m);
      assert Collision(sha, y, x) ==> Colliding(sha, TreeInputs(sha, a, m), TreeInputs(sha, b, n));
      assert Tree(sha, al, m - 1) == y[..32] && Tree(sha, bl, n - 1) == x[..32];
      assert forall z :: z in TreeInputs(sha, al, m - 1) ==> z in TreeInputs(sha, a, m);
      assert forall z :: z in TreeInputs(sha, bl, n - 1) ==> z in TreeInputs(sha, b, n);
      x := FirstLeafIsANode(sha, al, m - 1, bl, n - 1);
    }
  }

  lemma SameRootEqualDepth(sha: Sha, f: Bytes, g: Bytes)
    requires f != [] && g != [] && Depth(|Blocks(f)|) == Depth(|Blocks(g)|)
    requires Root(sha, f) == Root(sha, g) && !Colliding(sha, Inputs(sha, f), Inputs(sha, g))
    ensures Padded(Blocks(f)) == Padded(Blocks(g))
  {
    var a, b := Leaves(sha, f), Leaves(sha, g);
    var c := EqualDepthBinding(sha, a, b);
    assert c.0 in Inputs(sha, f) && c.1 in Inputs(sha, g) && Collision(sha, c.0, c.1) ==>
        Colliding(sha, Inputs(sha, f), Inputs(sha, g));
    PaddedLeaves(sha, f, g);
  }

  /** What the tree over a file's padded leaves hashes is among what its root is computed from. */
  lemma TreeInputsHashed(sha: Sha, file: Bytes, x: Bytes)
    requires file != [] && x in TreeInputs(sha, Padded(Leaves(sha, file)), Depth(|Blocks(file)|))
    ensures x in Inputs(sha, file)
  {
    InNodeInputs(sha, Leaves(sha, file), x);
  }

  lemma TreesDoNotCollide(sha: Sha, f: Bytes, g: Bytes)
    requires f != [] && g != [] && !Colliding(sha, Inputs(sha, f), Inputs(sha, g))
    ensures !Colliding(sha, TreeInputs(sha, Padded(Leaves(sha, f)), Depth(|Blocks(f)|)),
                       TreeInputs(sha, Padded(Leaves(sha, g)), Depth(|Blocks(g)|)))
  {
    forall x | x in TreeInputs(sha, Padded(Leaves(sha, f)), Depth(|Blocks(f)|)) ensures x in Inputs(sha, f) {
      TreeInputsHashed(sha, f, x);
    }
    forall y | y in TreeInputs(sha, Padded(Leaves(sha, g)), Depth(|Blocks(g)|)) ensures y in Inputs(sha, g) {
      TreeInputsHashed(sha, g, y);
    }
  }

  /** A first block that is not full is the whole file. */
  lemma ShortFirstBlock(file: Bytes)
    requires file != [] && |Blocks(file)[0]| < BLOCK
    ensures file == Blocks(file)[0] && |Blocks(file)| == 1
  {
  }

  lemma SameRootUnequalDepth(sha: Sha, f: Bytes, g: Bytes)
    requires f != [] && g != [] && Depth(|Blocks(f)|) < Depth(|Blocks(g)|)
    requires Root(sha, f) == Root(sha, g) && !Colliding(sha, Inputs(sha, f), Inputs(sha, g))
    ensures f == RootInput(sha, g)
  {
    var a, b := Leaves(sha, f), Leaves(sha, g);
    ReduceIsPerfectTree(sha, a);
    ReduceIsPerfectTree(sha, b);
    TreesDoNotCollide(sha, f, g);
    var x := FirstLeafIsANode(sha, Padded(a), Depth(|a|), Padded(b), Depth(|b|));
    TreeInputsHashed(sha, g, x);
    var first := Blocks(f)[0];
    LeavesPad(sha, f, 0);
    assert first == Padded(Blocks(f))[0] && first in Inputs(sha, f);
    assert Collision(sha, first, x) ==> Colliding(sha, Inputs(sha, f), Inputs(sha, g));
    ShortFirstBlock(f);
  }

  lemma SameRootEmpty(sha: Sha, g: Bytes)
    requires Root(sha, []) == Root(sha, g) && g != []
    ensures Colliding(sha, Inputs(sha, []), Inputs(sha, g)) && Colliding(sha, Inputs(sha, g), Inputs(sha, []))
  {
    if |g| <= BLOCK {
      OneBlock(sha, g);
      assert Collision(sha, [], g) && Collision(sha, g, []);
    } else {
      var x := RootInput(sha, g);
      RootOfInput(sha, g);
      NodeIsAFile(sha, g);
      assert Collision(sha, [], x) && Collision(sha, x, []);
    }
  }

  lemma CollidingSwaps(sha: Sha, xs: seq<Bytes>, ys: seq<Bytes>)
    requires Colliding(sha, xs, ys)
    ensures Colliding(sha, ys, xs)
  {
    var x, y :| x in xs && y in ys && Collision(sha, x, y);
    assert Collision(sha, y, x);
  }

  /**
   For all files: two of them whose runs contain no collision print the same root if and only if they are the
   same to the root.
   */
  lemma SameRootExactly(sha: Sha, f: Bytes, g: Bytes)
    requires !Colliding(sha, Inputs(sha, f), Inputs(sha, g))
    ensures Hex(Root(sha, f)) == Hex(Root(sha, g)) <==> SameToRoot(sha, f, g)
  {
    if SameToRoot(sha, f, g) {
      SameToRootSuffices(sha, f, g);
    } else if Hex(Root(sha, f)) == Hex(Root(sha, g)) {
      HexInjective(Root(sha, f), Root(sha, g));
      if f == [] {
        SameRootEmpty(sha, g);
      } else if g == [] {
        SameRootEmpty(sha, f);
      } else if Depth(|Blocks(f)|) == Depth(|Blocks(g)|) {
        SameRootEqualDepth(sha, f, g);
      } else if Depth(|Blocks(f)|) < Depth(|Blocks(g)|) {
        SameRootUnequalDepth(sha, f, g);
      } else {
        if Colliding(sha, Inputs(sha, g), Inputs(sha, f)) {
          CollidingSwaps(sha, Inputs(sha, g), Inputs(sha, f));
        }
        SameRootUnequalDepth(sha, g, f);
      }
    }
  }
}
