/** The isolation forest: integer scoring over single-node trees. */
module IsolationForest {
  import opened Options
  import opened Arithmetic
  import opened Words

  const FEATURES := 6

  datatype Node = Node(featureIdx: int, threshold: int)

  /** 1 when the feature is above the threshold and 5 otherwise; a feature that is not supplied counts as 0. */
  function Vote(node: Node, features: seq<int>, n: int): (v: int)
    requires n <= |features| && 0 <= node.featureIdx
    ensures v == 1 || v == 5
  {
    var val := if node.featureIdx < n then features[node.featureIdx] else 0;
    if val > node.threshold then 1 else 5
  }

  predicate Indexed(trees: seq<Node>) {
    forall k | 0 <= k < |trees| :: 0 <= trees[k].featureIdx
  }

  function Total(trees: seq<Node>, features: seq<int>, n: int): (t: nat)
    requires n <= |features| && Indexed(trees)
    ensures |trees| <= t <= 5 * |trees|
  {
    if trees == [] then 0
    else Total(trees[..|trees| - 1], features, n) + Vote(trees[|trees| - 1], features, n)
  }

  function Clamp(score: int): int {
    if score < 0 then 0 else if score > 100 then 100 else score
  }

  /** The score before clamping. Totals are never negative, so C's truncating division is Dafny's here. */
  function RawScore(total: nat, nTrees: int, maxDepth: int): int
    requires nTrees != 0 && (nTrees < 0 ==> total == 0)
  {
    100 - total / nTrees * 10 / (if maxDepth > 0 then maxDepth else 1)
  }

  function Score(trees: seq<Node>, maxDepth: int, features: seq<int>, n: int): int
    requires n <= |features| && Indexed(trees) && trees != []
  {
    Clamp(RawScore(Total(trees, features, n), |trees|, maxDepth))
  }

  // ---------------------------------------------------------------- properties of the score

  /** The value that a tree looks at, 0 for a feature that is not supplied, is not above its threshold. */
  predicate AtOrBelow(node: Node, features: seq<int>, n: int)
    requires n <= |features| && 0 <= node.featureIdx
  {
    (if node.featureIdx < n then features[node.featureIdx] else 0) <= node.threshold
  }

  /** The trees whose value is not above their threshold. */
  function Lows(trees: seq<Node>, features: seq<int>, n: int): (s: set<nat>)
    requires n <= |features| && Indexed(trees)
  {
    set k: nat | k < |trees| && AtOrBelow(trees[k], features, n)
  }

  /** Every tree contributes one vote, and those trees four more. */
  lemma {:induction false} TotalCounts(trees: seq<Node>, features: seq<int>, n: int)
    requires n <= |features| && Indexed(trees)
    ensures Total(trees, features, n) == |trees| + 4 * |Lows(trees, features, n)|
  {
    if trees != [] {
      var last := |trees| - 1;
      var lows, before := Lows(trees, features, n), Lows(trees[..last], features, n);
      TotalCounts(trees[..last], features, n);
      assert lows == if AtOrBelow(trees[last], features, n) then before + {last} else before;
    }
  }

  /** The score falls with the number of trees whose value is not above their threshold. */
  lemma ScoreCounts(trees: seq<Node>, maxDepth: int, features: seq<int>, n: int)
    requires n <= |features| && Indexed(trees) && trees != []
    ensures var k, d := |Lows(trees, features, n)|, if maxDepth > 0 then maxDepth else 1;
            Score(trees, maxDepth, features, n) == 100 - (|trees| + 4 * k) / |trees| * 10 / d
  {
    TotalCounts(trees, features, n);
    ScoreBounds(trees, maxDepth, features, n);
  }

  lemma DivMonotone(a: nat, b: nat, d: nat)
    requires a <= b && d > 0
    ensures a / d <= b / d
  {
    var k := b / d - a / d;
    assert d * k == (b - b % d) - (a - a % d);
    MulGap(d, k);
  }

  lemma {:induction false} TotalAntitone(trees: seq<Node>, low: seq<int>, high: seq<int>, n: int)
    requires n <= |low| == |high| && Indexed(trees)
    requires forall k | 0 <= k < |low| :: low[k] <= high[k]
    ensures Total(trees, high, n) <= Total(trees, low, n)
  {
    if trees != [] {
      TotalAntitone(trees[..|trees| - 1], low, high, n);
    }
  }

  lemma RawScoreAntitone(a: nat, b: nat, nTrees: int, maxDepth: int)
    requires a <= b && nTrees > 0
    ensures RawScore(b, nTrees, maxDepth) <= RawScore(a, nTrees, maxDepth)
  {
    DivMonotone(a, b, nTrees);
    DivMonotone(a / nTrees * 10, b / nTrees * 10, if maxDepth > 0 then maxDepth else 1);
  }

  /** Raising features never lowers the score. */
  lemma ScoreMonotone(trees: seq<Node>, maxDepth: int, low: seq<int>, high: seq<int>, n: int)
    requires n <= |low| == |high| && Indexed(trees) && trees != []
    requires forall k | 0 <= k < |low| :: low[k] <= high[k]
    ensures Score(trees, maxDepth, low, n) <= Score(trees, maxDepth, high, n)
  {
    TotalAntitone(trees, low, high, n);
    RawScoreAntitone(Total(trees, high, n), Total(trees, low, n), |trees|, maxDepth);
  }

  lemma {:induction false} TotalWithout(trees: seq<Node>, i: nat, features: seq<int>, n: int)
    requires n <= |features| && Indexed(trees) && i < |trees|
    ensures Indexed(trees[..i] + trees[i + 1..])
    ensures Total(trees, features, n) == Total(trees[..i] + trees[i + 1..], features, n) + Vote(trees[i], features, n)
  {
    var last := |trees| - 1;
    if i == last {
      assert trees[..i] + trees[i + 1..] == trees[..last];
    } else {
      TotalWithout(trees[..last], i, features, n);
      var rest := trees[..i] + trees[i + 1..];
      assert rest[..|rest| - 1] == trees[..last][..i] + trees[..last][i + 1..];
    }
  }

  lemma RemoveOne(s: seq<Node>, i: nat)
    requires i < |s|
    ensures multiset(s[..i] + s[i + 1..]) == multiset(s) - multiset{s[i]}
  {
    assert s == s[..i] + [s[i]] + s[i + 1..];
  }

  lemma RemoveLast(s: seq<Node>)
    requires s != []
    ensures multiset(s[..|s| - 1]) == multiset(s) - multiset{s[|s| - 1]}
  {
    assert s == s[..|s| - 1] + [s[|s| - 1]];
  }

  lemma {:induction false} TotalPermuted(a: seq<Node>, b: seq<Node>, features: seq<int>, n: int)
    requires n <= |features| && Indexed(a) && Indexed(b) && multiset(a) == multiset(b)
    ensures Total(a, features, n) == Total(b, features, n)
    decreases |a|
  {
    if a == [] {
      assert |multiset(a)| == |multiset(b)|;
    } else {
      var node := a[|a| - 1];
      assert node in multiset(a);
      var i :| 0 <= i < |b| && b[i] == node;
      RemoveLast(a);
      RemoveOne(b, i);
      TotalWithout(b, i, features, n);
      TotalPermuted(a[..|a| - 1], b[..i] + b[i + 1..], features, n);
    }
  }

  /** The score does not depend on the order of the trees. */
  lemma ScorePermuted(a: seq<Node>, b: seq<Node>, maxDepth: int, features: seq<int>, n: int)
    requires n <= |features| && Indexed(a) && Indexed(b) && a != [] && multiset(a) == multiset(b)
    ensures b != [] && Score(a, maxDepth, features, n) == Score(b, maxDepth, features, n)
  {
    assert |multiset(a)| == |multiset(b)|;
    TotalPermuted(a, b, features, n);
  }

  /** Between 1 and 5 a tree: the score stays within fixed bounds and neither clamp ever applies. */
  lemma ScoreBounds(trees: seq<Node>, maxDepth: int, features: seq<int>, n: int)
    requires n <= |features| && Indexed(trees) && trees != []
    ensures var d := if maxDepth > 0 then maxDepth else 1;
            var s := Score(trees, maxDepth, features, n);
            && 50 <= 100 - 50 / d <= s <= 100 - 10 / d <= 100
            && s == RawScore(Total(trees, features, n), |trees|, maxDepth)
  {
    var t, k := Total(trees, features, n), |trees|;
    AverageBounds(t, k);
    DropBounds(t / k, if maxDepth > 0 then maxDepth else 1);
  }

  lemma AverageBounds(t: nat, k: nat)
    requires k > 0 && k <= t <= 5 * k
    ensures 1 <= t / k <= 5
  {
  }

  lemma DropBounds(avg: nat, d: nat)
    requires 1 <= avg <= 5 && d > 0
    ensures 0 <= 10 / d <= avg * 10 / d <= 50 / d <= 50
  {
    DivMonotone(10, avg * 10, d);
    DivMonotone(avg * 10, 50, d);
    MulAtLeast(d, 50 / d);
  }

  lemma MulAtLeast(d: nat, a: nat)
    requires d > 0
    ensures d * a >= a
  {
  }

  // ---------------------------------------------------------------- the implementation

  class Forest {
    var nTrees: int
    var maxDepth: int
    var trees: array?<Node>

    constructor ()
      ensures nTrees == 0 && maxDepth == 0 && trees == null
    {
      nTrees, maxDepth, trees := 0, 0, null;
    }

    /** As many nodes as announced. */
    ghost predicate Allocated()
      reads this
    {
      nTrees > 0 ==> trees != null && trees.Length >= nTrees
    }

    /** And each with a feature index that can be looked up. */
    ghost predicate Valid()
      reads this, trees
    {
      Allocated() && (nTrees > 0 ==> Indexed(trees[..nTrees]))
    }

    ghost function Nodes(): seq<Node>
      requires Allocated()
      reads this, trees
    {
      if nTrees <= 0 then [] else trees[..nTrees]
    }

    /**
     iforest_init when calloc succeeds; a negative count asks for too much, and leaves no array. randoms are the
     results of the successive calls of rand.
     */
    method Init(nTrees: int, maxDepth: int, randoms: seq<nat>)
      requires 2 * nTrees <= |randoms|
      modifies this
      ensures Valid() && this.nTrees == nTrees && this.maxDepth == maxDepth
      ensures forall k | 0 <= k < nTrees :: 0 <= Nodes()[k].featureIdx < FEATURES && 0 <= Nodes()[k].threshold < 256
      ensures forall k | 0 <= k < nTrees :: Nodes()[k] == Node(randoms[2 * k] % 6, randoms[2 * k + 1] % 256)
      ensures nTrees >= 0 ==> fresh(trees) && trees.Length == nTrees
    {
      this.nTrees, this.maxDepth := nTrees, maxDepth;
      if nTrees < 0 {
        trees := null;
        return;
      }
      var a := new Node[nTrees](_ => Node(0, 0));
      trees := a;
      for i := 0 to nTrees
        invariant trees == a && this.nTrees == nTrees && this.maxDepth == maxDepth
        invariant forall k | 0 <= k < i :: a[k] == Node(randoms[2 * k] % 6, randoms[2 * k + 1] % 256)
      {
        a[i] := Node(randoms[2 * i] % 6, randoms[2 * i + 1] % 256);
      }
    }

    /** The loop of iforest_score over the trees. */
    method Votes(features: seq<int>, n: int) returns (scoreAcc: int)
      requires Valid() && n <= |features|
      ensures scoreAcc == Total(Nodes(), features, n)
    {
      scoreAcc := 0;
      ghost var nodes := Nodes();
      for i := 0 to if nTrees > 0 then nTrees else 0
        invariant scoreAcc == Total(nodes[..i], features, n)
      {
        var fi, thr := trees[i].featureIdx, trees[i].threshold;
        var val := if fi < n then features[fi] else 0;
        assert nodes[..i + 1][..i] == nodes[..i];
        scoreAcc := scoreAcc + if val > thr then 1 else 5;
      }
      assert nodes[..|nodes|] == nodes;
    }

    /** iforest_score; features is None for a NULL pointer. The sum of the votes must fit an int. */
    method ScoreEvent(features: Option<seq<int>>, n: int) returns (score: int)
      requires Valid() && nTrees != 0 && 5 * nTrees <= INT_MAX
      requires features.Some? ==> n <= |features.value|
      ensures features.None? ==> score == 0
      ensures features.Some? && nTrees > 0 ==> score == Score(Nodes(), maxDepth, features.value, n)
      ensures features.Some? && nTrees < 0 ==> score == 100
    {
      if features.None? {
        return 0;
      }
      var scoreAcc := Votes(features.value, n);
      assert scoreAcc <= INT_MAX;
      var avg := scoreAcc / nTrees;
      score := 100 - avg * 10 / (if maxDepth > 0 then maxDepth else 1);
      if score < 0 {
        score := 0;
      }
      if score > 100 {
        score := 100;
      }
    }
  }
}
