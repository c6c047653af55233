/** The LSTM predictor over flat weight arrays, with floats as reals and the two activations as parameters. */
module Lstm {
  import opened Words
  import opened Arithmetic

  /** Everything a prediction depends on: sizes, weights and the activations. Biases are not among it. */
  datatype Net = Net(inputSize: nat, hiddenSize: nat, weights: seq<real>, sigmoid: real -> real, tanh: real -> real) {
    function Stride(): nat { 4 * hiddenSize }
  }

  /** The hidden and cell vectors. */
  datatype Cells = Cells(h: seq<real>, c: seq<real>)

  function Start(hidden: nat): Cells {
    Cells(seq(hidden, _ => 0.0), seq(hidden, _ => 0.0))
  }

  /** Reading past the end never happens in a prediction (see Model.Predict); here it gives 0. */
  function Get(x: seq<real>, k: nat): real {
    if k < |x| then x[k] else 0.0
  }

  /** The column of weights from index at, one in every stride, against n values of x from index from. */
  function Dot(x: seq<real>, from: nat, w: seq<real>, at: nat, stride: nat, n: nat): real {
    if n == 0 then 0.0
    else Dot(x, from, w, at, stride, n - 1) + Get(x, from + n - 1) * Get(w, at + (n - 1) * stride)
  }

  /** The one value that feeds all four gates of hidden unit i: the inputs of this step and the hidden vector so far. */
  function Drive(net: Net, input: seq<real>, at: nat, h: seq<real>, i: nat): real {
    var s := net.Stride();
    Dot(input, at, net.weights, i, s, net.inputSize) +
    Dot(h, 0, net.weights, net.inputSize * s + i, s, net.hiddenSize)
  }

  function Activate(f: real -> real, x: real): real {
    f(x)
  }

  /** A cell after forgetting part of itself and taking in part of the candidate. */
  function NewCell(fg: real, cell: real, ig: real, candidate: real): real {
    fg * cell + ig * candidate
  }

  function NewHidden(og: real, squashed: real): real {
    og * squashed
  }

  function UpdateUnit(sigmoid: real -> real, tanh: real -> real, z: real, st: Cells, i: nat): (r: Cells)
    requires i < |st.h| == |st.c|
    ensures |r.h| == |r.c| == |st.h|
  {
    var gate := Activate(sigmoid, z);
    var cell := NewCell(gate, st.c[i], gate, Activate(tanh, z));
    Cells(st.h[i := NewHidden(gate, Activate(tanh, cell))], st.c[i := cell])
  }

  /** One time step after its first i units, each of which already sees the units updated before it. */
  function Sweep(net: Net, input: seq<real>, at: nat, st: Cells, i: nat): (r: Cells)
    requires i <= net.hiddenSize == |st.h| == |st.c|
    ensures |r.h| == |r.c| == net.hiddenSize
  {
    if i == 0 then st
    else
      var prev := Sweep(net, input, at, st, i - 1);
      UpdateUnit(net.sigmoid, net.tanh, Drive(net, input, at, prev.h, i - 1), prev, i - 1)
  }

  function Run(net: Net, input: seq<real>, t: nat): (r: Cells)
    ensures |r.h| == |r.c| == net.hiddenSize
  {
    if t == 0 then Start(net.hiddenSize)
    else Sweep(net, input, (t - 1) * net.inputSize, Run(net, input, t - 1), net.hiddenSize)
  }

  // ---------------------------------------------------------------- non-interference

  /** The two nets agree on the first quarter of every row of weights. */
  ghost predicate AgreeOnFirstQuarter(a: Net, b: Net) {
    && a.inputSize == b.inputSize && a.hiddenSize == b.hiddenSize > 0
    && a.sigmoid == b.sigmoid && a.tanh == b.tanh
    && forall k: nat | k % a.Stride() < a.hiddenSize :: Get(a.weights, k) == Get(b.weights, k)
  }

  lemma WeightAgrees(a: Net, b: Net, row: nat, i: nat)
    requires AgreeOnFirstQuarter(a, b) && i < a.hiddenSize
    ensures row * a.Stride() + i >= 0
    ensures Get(a.weights, row * a.Stride() + i) == Get(b.weights, row * a.Stride() + i)
  {
    MulNonNegative(row, a.Stride());
    ModUnique(row * a.Stride() + i, a.Stride(), row, i);
  }

  lemma {:induction false} DotAgrees(x: seq<real>, from: nat, a: Net, b: Net, row: nat, i: nat, n: nat)
    requires AgreeOnFirstQuarter(a, b) && i < a.hiddenSize
    ensures row * a.Stride() + i >= 0
    ensures Dot(x, from, a.weights, row * a.Stride() + i, a.Stride(), n) ==
            Dot(x, from, b.weights, row * a.Stride() + i, a.Stride(), n)
  {
    var s := a.Stride();
    MulNonNegative(row, s);
    if n > 0 {
      DotAgrees(x, from, a, b, row, i, n - 1);
      assert row * s + i + (n - 1) * s == (row + n - 1) * s + i;
      WeightAgrees(a, b, row + n - 1, i);
    }
  }

  lemma DriveAgrees(a: Net, b: Net, input: seq<real>, at: nat, h: seq<real>, i: nat)
    requires AgreeOnFirstQuarter(a, b) && i < a.hiddenSize
    ensures Drive(a, input, at, h, i) == Drive(b, input, at, h, i)
  {
    assert 0 * a.Stride() + i == i;
    DotAgrees(input, at, a, b, 0, i, a.inputSize);
    DotAgrees(h, 0, a, b, a.inputSize, i, a.hiddenSize);
  }

  lemma {:induction false} SweepAgrees(a: Net, b: Net, input: seq<real>, at: nat, st: Cells, i: nat)
    requires AgreeOnFirstQuarter(a, b) && i <= a.hiddenSize == |st.h| == |st.c|
    ensures Sweep(a, input, at, st, i) == Sweep(b, input, at, st, i)
  {
    if i > 0 {
      SweepAgrees(a, b, input, at, st, i - 1);
      DriveAgrees(a, b, input, at, Sweep(a, input, at, st, i - 1).h, i - 1);
    }
  }

  /**
   Nets that agree on the first quarter of every row predict the same on every input sequence: the
   remaining three quarters of the weights have no influence, nor have the biases, which no part of Run reads.
   */
  lemma {:induction false} NonInterference(a: Net, b: Net, input: seq<real>, t: nat)
    requires AgreeOnFirstQuarter(a, b)
    ensures Run(a, input, t) == Run(b, input, t)
  {
    if t > 0 {
      NonInterference(a, b, input, t - 1);
      MulNonNegative(t - 1, a.inputSize);
      SweepAgrees(a, b, input, (t - 1) * a.inputSize, Run(a, input, t - 1), a.hiddenSize);
    }
  }

  // ---------------------------------------------------------------- the recurrence

  function Sum(terms: seq<real>): real {
    if terms == [] then 0.0 else Sum(terms[..|terms| - 1]) + terms[|terms| - 1]
  }

  lemma {:induction false} SumConcat(a: seq<real>, b: seq<real>)
    ensures Sum(a + b) == Sum(a) + Sum(b)
  {
    if b == [] {
      assert a + b == a;
    } else {
      SumConcat(a, b[..|b| - 1]);
      assert (a + b)[..|a + b| - 1] == a + b[..|b| - 1];
    }
  }

  /** The weight in row row, column i. */
  function WeightTo(net: Net, row: nat, i: nat): real {
    MulNonNegative(4 * net.hiddenSize, row);
    Get(net.weights, 4 * net.hiddenSize * row + i)
  }

  /** The products of n values of v from index from with the weights of column i from row row. */
  function Terms(net: Net, v: seq<real>, from: nat, row: nat, n: nat, i: nat): seq<real> {
    seq(n, j requires 0 <= j => Get(v, from + j) * WeightTo(net, row + j, i))
  }

  lemma RowIndex(stride: nat, first: nat, j: nat)
    ensures stride * (first + j) == first * stride + j * stride && j * stride >= 0 && first * stride >= 0
  {
  }

  lemma {:induction false} DotIsSum(net: Net, v: seq<real>, from: nat, row: nat, n: nat, i: nat)
    ensures row * net.Stride() >= 0
    ensures Dot(v, from, net.weights, row * net.Stride() + i, net.Stride(), n) == Sum(Terms(net, v, from, row, n, i))
  {
    RowIndex(net.Stride(), row, 0);
    if n > 0 {
      DotIsSum(net, v, from, row, n - 1, i);
      RowIndex(net.Stride(), row, n - 1);
      var terms := Terms(net, v, from, row, n, i);
      assert terms[..n - 1] == Terms(net, v, from, row, n - 1, i);
      assert terms[n - 1] == Get(v, from + (n - 1)) * WeightTo(net, row + (n - 1), i);
    }
  }

  /** The drive is the sum over the inputs and over all hidden values. */
  lemma DriveIsSum(net: Net, x: seq<real>, at: nat, h: seq<real>, i: nat)
    ensures Drive(net, x, at, h, i) ==
            Sum(Terms(net, x, at, 0, net.inputSize, i)) + Sum(Terms(net, h, 0, net.inputSize, net.hiddenSize, i))
  {
    assert 0 * net.Stride() + i == i;
    DotIsSum(net, x, at, 0, net.inputSize, i);
    DotIsSum(net, h, 0, net.inputSize, net.hiddenSize, i);
  }

  /** In a sweep, a unit is updated once, in its turn. */
  lemma {:induction false} SweepOnce(net: Net, x: seq<real>, at: nat, st: Cells, k: nat, i: nat)
    requires k <= net.hiddenSize == |st.h| == |st.c| && i < net.hiddenSize
    ensures var e, turn := Sweep(net, x, at, st, k), if i < k then Sweep(net, x, at, st, i + 1) else st;
            e.h[i] == turn.h[i] && e.c[i] == turn.c[i]
  {
    if k > 0 && i != k - 1 {
      SweepOnce(net, x, at, st, k - 1, i);
    }
  }

  /** The hidden values that unit i sees: those before it from this step, the others from the step before. */
  lemma HiddenSeen(net: Net, x: seq<real>, at: nat, st: Cells, i: nat)
    requires i < net.hiddenSize == |st.h| == |st.c|
    ensures var seen, end := Sweep(net, x, at, st, i).h, Sweep(net, x, at, st, net.hiddenSize).h;
            seen == end[..i] + st.h[i..]
  {
    var seen, end := Sweep(net, x, at, st, i).h, Sweep(net, x, at, st, net.hiddenSize).h;
    forall j | 0 <= j < net.hiddenSize
      ensures seen[j] == if j < i then end[j] else st.h[j]
    {
      SweepOnce(net, x, at, st, i, j);
      SweepOnce(net, x, at, st, net.hiddenSize, j);
    }
  }

  lemma HiddenSplit(net: Net, end: seq<real>, before: seq<real>, i: nat)
    requires i <= net.hiddenSize == |end| == |before|
    ensures Sum(Terms(net, end[..i] + before[i..], 0, net.inputSize, net.hiddenSize, i)) ==
            Sum(Terms(net, end, 0, net.inputSize, i, i)) +
            Sum(Terms(net, before, i, net.inputSize + i, net.hiddenSize - i, i))
  {
    var seen, n := end[..i] + before[i..], net.inputSize;
    var a, b := Terms(net, end, 0, n, i, i), Terms(net, before, i, n + i, net.hiddenSize - i, i);
    var all := Terms(net, seen, 0, n, net.hiddenSize, i);
    forall j | 0 <= j < net.hiddenSize
      ensures all[j] == (a + b)[j]
    {
      assert Get(seen, 0 + j) == if j < i then Get(end, 0 + j) else Get(before, i + (j - i));
      assert n + j == n + i + (j - i);
    }
    assert all == a + b;
    SumConcat(a, b);
  }

  /**
   The argument of unit i's gates: the weighted sum of the step's inputs, of the new hidden values of the units
   before i, and of the old ones of i and the units after it.
   */
  function Argument(net: Net, x: seq<real>, at: nat, before: seq<real>, now: seq<real>, i: nat): real
    requires i <= net.hiddenSize
  {
    Sum(Terms(net, x, at, 0, net.inputSize, i))
    + Sum(Terms(net, now, 0, net.inputSize, i, i))
    + Sum(Terms(net, before, i, net.inputSize + i, net.hiddenSize - i, i))
  }

  lemma DriveSplit(net: Net, x: seq<real>, at: nat, before: seq<real>, now: seq<real>, seen: seq<real>, i: nat)
    requires i < net.hiddenSize == |before| == |now| && seen == now[..i] + before[i..]
    ensures Drive(net, x, at, seen, i) == Argument(net, x, at, before, now, i)
  {
    HiddenSplit(net, now, before, i);
    DriveIsSum(net, x, at, seen, i);
  }

  lemma UnitDrive(net: Net, x: seq<real>, at: nat, st: Cells, i: nat)
    requires i < net.hiddenSize == |st.h| == |st.c|
    ensures Drive(net, x, at, Sweep(net, x, at, st, i).h, i) ==
            Argument(net, x, at, st.h, Sweep(net, x, at, st, net.hiddenSize).h, i)
  {
    var seen, end := Sweep(net, x, at, st, i).h, Sweep(net, x, at, st, net.hiddenSize).h;
    HiddenSeen(net, x, at, st, i);
    DriveSplit(net, x, at, st.h, end, seen, i);
  }

  /** A cell and a hidden value after a step whose gates have the argument z. */
  predicate Gated(net: Net, z: real, before: real, cell: real, hidden: real) {
    && cell == net.sigmoid(z) * before + net.sigmoid(z) * net.tanh(z)
    && hidden == net.sigmoid(z) * net.tanh(cell)
  }

  lemma UpdateUnitGated(net: Net, z: real, st: Cells, i: nat)
    requires i < |st.h| == |st.c|
    ensures var r := UpdateUnit(net.sigmoid, net.tanh, z, st, i); Gated(net, z, st.c[i], r.c[i], r.h[i])
  {
  }

  /** What unit i makes of its drive, at the end of the sweep. */
  lemma UnitUpdated(net: Net, x: seq<real>, at: nat, st: Cells, i: nat)
    requires i < net.hiddenSize == |st.h| == |st.c|
    ensures var end, z := Sweep(net, x, at, st, net.hiddenSize), Drive(net, x, at, Sweep(net, x, at, st, i).h, i);
            Gated(net, z, st.c[i], end.c[i], end.h[i])
  {
    var seen := Sweep(net, x, at, st, i);
    var z := Drive(net, x, at, seen.h, i);
    SweepOnce(net, x, at, st, net.hiddenSize, i);
    SweepOnce(net, x, at, st, i, i);
    assert Sweep(net, x, at, st, i + 1) == UpdateUnit(net.sigmoid, net.tanh, z, seen, i);
    UpdateUnitGated(net, z, seen, i);
  }

  /** What the network computes in its first t steps: it starts at zero, and a step updates every unit once. */
  lemma Recurrence(net: Net, x: seq<real>, t: nat, i: nat)
    requires i < net.hiddenSize
    ensures Run(net, x, 0).h[i] == 0.0 && Run(net, x, 0).c[i] == 0.0
    ensures t * net.inputSize >= 0
    ensures var before, now := Run(net, x, t), Run(net, x, t + 1);
            Gated(net, Argument(net, x, t * net.inputSize, before.h, now.h, i), before.c[i], now.c[i], now.h[i])
  {
    StepIsSweep(net, x, t);
    UnitDrive(net, x, t * net.inputSize, Run(net, x, t), i);
    UnitUpdated(net, x, t * net.inputSize, Run(net, x, t), i);
  }

  lemma StepIsSweep(net: Net, x: seq<real>, t: nat)
    ensures t * net.inputSize >= 0
    ensures Run(net, x, t + 1) == Sweep(net, x, t * net.inputSize, Run(net, x, t), net.hiddenSize)
  {
    MulNonNegative(t, net.inputSize);
    assert (t + 1) - 1 == t;
  }

  // ---------------------------------------------------------------- bounds

  ghost predicate Squashing(net: Net) {
    && (forall x :: 0.0 < Activate(net.sigmoid, x) < 1.0)
    && (forall x :: -1.0 < Activate(net.tanh, x) < 1.0)
  }

  /** Hidden values stay in (-1, 1), the first i cells within bound + 1 and the others within bound. */
  ghost predicate Bounded(st: Cells, i: nat, bound: real) {
    && (forall k | 0 <= k < |st.h| :: -1.0 < st.h[k] < 1.0)
    && (forall k | 0 <= k < |st.c| :: -CellBound(k, i, bound) <= st.c[k] <= CellBound(k, i, bound))
  }

  function CellBound(k: nat, i: nat, bound: real): real {
    if k < i then bound + 1.0 else bound
  }

  lemma Shrinks(f: real, x: real, bound: real)
    requires 0.0 < f < 1.0 && -bound <= x <= bound
    ensures -bound <= f * x <= bound
  {
    assert f * (bound - x) >= 0.0 && f * (bound + x) >= 0.0;
    assert (1.0 - f) * bound >= 0.0;
  }

  lemma ShrinksBelowOne(f: real, x: real)
    requires 0.0 < f < 1.0 && -1.0 < x < 1.0
    ensures -1.0 < f * x < 1.0
  {
    assert f * (1.0 - x) > 0.0 && f * (1.0 + x) > 0.0;
  }

  lemma NewCellBounded(fg: real, cell: real, ig: real, candidate: real, bound: real)
    requires 0.0 < fg < 1.0 && -bound <= cell <= bound && 0.0 < ig < 1.0 && -1.0 < candidate < 1.0
    ensures -(bound + 1.0) <= NewCell(fg, cell, ig, candidate) <= bound + 1.0
  {
    var kept, added := fg * cell, ig * candidate;
    Shrinks(fg, cell, bound);
    ShrinksBelowOne(ig, candidate);
    assert NewCell(fg, cell, ig, candidate) == kept + added;
  }

  lemma UpdateBounded(net: Net, z: real, st: Cells, i: nat, bound: real)
    requires Squashing(net) && bound >= 0.0 && i < |st.h| == |st.c| && Bounded(st, i, bound)
    ensures Bounded(UpdateUnit(net.sigmoid, net.tanh, z, st, i), i + 1, bound)
  {
    var gate, candidate := Activate(net.sigmoid, z), Activate(net.tanh, z);
    assert CellBound(i, i, bound) == bound;
    NewCellBounded(gate, st.c[i], gate, candidate, bound);
    var cell := NewCell(gate, st.c[i], gate, candidate);
    ShrinksBelowOne(gate, Activate(net.tanh, cell));
    assert UpdateUnit(net.sigmoid, net.tanh, z, st, i) ==
           Cells(st.h[i := NewHidden(gate, Activate(net.tanh, cell))], st.c[i := cell]);
  }

  lemma {:induction false} SweepBounded(net: Net, input: seq<real>, at: nat, st: Cells, i: nat, bound: real)
    requires Squashing(net) && bound >= 0.0 && i <= net.hiddenSize == |st.h| == |st.c| && Bounded(st, 0, bound)
    ensures Bounded(Sweep(net, input, at, st, i), i, bound)
  {
    if i > 0 {
      SweepBounded(net, input, at, st, i - 1, bound);
      var prev := Sweep(net, input, at, st, i - 1);
      UpdateBounded(net, Drive(net, input, at, prev.h, i - 1), prev, i - 1, bound);
    }
  }

  lemma {:induction false} RunKeepsBounded(net: Net, input: seq<real>, t: nat)
    requires Squashing(net)
    ensures Bounded(Run(net, input, t), 0, t as real)
  {
    if t > 0 {
      RunKeepsBounded(net, input, t - 1);
      MulNonNegative(t - 1, net.inputSize);
      var st := Run(net, input, t);
      SweepBounded(net, input, (t - 1) * net.inputSize, Run(net, input, t - 1), net.hiddenSize, (t - 1) as real);
      SweptBound(st, t);
    }
  }

  lemma SweptBound(st: Cells, t: nat)
    requires t > 0 && Bounded(st, |st.c|, (t - 1) as real)
    ensures Bounded(st, 0, t as real)
  {
  }

  /** After t steps every hidden value is strictly within (-1, 1) and every cell value within [-t, t]. */
  lemma RunBounded(net: Net, input: seq<real>, t: nat)
    requires Squashing(net)
    ensures forall k | 0 <= k < net.hiddenSize :: -1.0 < Run(net, input, t).h[k] < 1.0
    ensures forall k | 0 <= k < net.hiddenSize :: -(t as real) <= Run(net, input, t).c[k] <= t as real
  {
    RunKeepsBounded(net, input, t);
  }

  // ---------------------------------------------------------------- the implementation

  function InitialWeight(i: nat): (w: real)
    ensures 0.0 <= w < 0.1
  {
    ((i * 13 + 7) % 97) as real / 97.0 * 0.1
  }

  lemma SameMod97(a: int, b: int, q: int)
    requires a == b + 97 * q
    ensures a % 97 == b % 97
  {
    ModUnique(a, 97, b / 97 + q, b % 97);
  }

  /** 13 has an inverse modulo 97, which is 15. */
  lemma Mod97(i: int, j: int)
    ensures (i * 13 + 7) % 97 == (j * 13 + 7) % 97 <==> i % 97 == j % 97
  {
    var a, b := i * 13 + 7, j * 13 + 7;
    if a % 97 == b % 97 {
      SameMod97(i, j, 15 * (a / 97 - b / 97) - 2 * (i - j));
    }
    if i % 97 == j % 97 {
      SameMod97(a, b, 13 * (i / 97 - j / 97));
    }
  }

  /** The initial weights repeat after 97, and within a period no two are the same. */
  lemma InitialWeightPeriod(i: nat, j: nat)
    ensures InitialWeight(i) == InitialWeight(j) <==> i % 97 == j % 97
    ensures InitialWeight(0) == 0.7 / 97.0 && InitialWeight(1) == 2.0 / 97.0
  {
    Mod97(i, j);
  }

  /** What a gate sees: the bias is multiplied by zero before the drive is added. */
  function Gate(bias: real, z: real): (r: real)
    ensures r == z
  {
    bias * 0.0 + z
  }

  /** The new cell from its gates, and the new hidden value from the new cell. */
  method WriteUnit(h: array<real>, c: array<real>, i: nat, ig: real, fg: real, og: real, gg: real, tanh: real -> real)
    requires i < h.Length == c.Length && h != c
    modifies h, c
    ensures var cell := NewCell(fg, old(c[i]), ig, gg);
            c[..] == old(c[..])[i := cell] && h[..] == old(h[..])[i := NewHidden(og, Activate(tanh, cell))]
  {
    c[i] := NewCell(fg, c[i], ig, gg);
    h[i] := NewHidden(og, Activate(tanh, c[i]));
  }

  /** The final loop, which copies the first n hidden values out. */
  method CopyOut(h: array<real>, out: array<real>, n: nat)
    requires n <= h.Length && n <= out.Length && h != out
    modifies out
    ensures out[..] == h[..n] + old(out[..])[n..]
  {
    for i := 0 to n
      invariant forall k | 0 <= k < i :: out[k] == h[k]
      invariant forall k | i <= k < out.Length :: out[k] == old(out[k])
    {
      out[i] := h[i];
    }
  }

  class Model {
    var inputSize: int
    var hiddenSize: int
    var weights: array?<real>
    var biases: array?<real>

    constructor ()
    {
      inputSize, hiddenSize, weights, biases := 0, 0, null, null;
    }

    /** The arrays are large enough for every index a prediction computes, and the indices of biases fit an int. */
    ghost predicate Shaped()
      reads this
    {
      && inputSize > 0 && hiddenSize > 0
      && weights != null && weights.Length >= (inputSize + hiddenSize) * (4 * hiddenSize)
      && biases != null && biases.Length >= 4 * hiddenSize
      && BiasIndicesFit(hiddenSize)
    }

    ghost function AsNet(sigmoid: real -> real, tanh: real -> real): Net
      requires inputSize >= 0 && hiddenSize >= 0 && weights != null
      reads this, weights
    {
      Net(inputSize, hiddenSize, weights[..], sigmoid, tanh)
    }

    /**
     lstm_init_model. The weight count is computed in 64 bits; the model that results is fit for predictions
     exactly when that computation does not wrap and four times the hidden size, the number of biases, is at
     most 2^31.
     */
    method Init(inputSize: int, hiddenSize: int, weightsFit: bool, biasesFit: bool) returns (rc: int)
      requires inputSize <= INT_MAX && hiddenSize <= INT_MAX
      modifies this
      ensures rc == 0 <==> inputSize > 0 && hiddenSize > 0 && weightsFit && biasesFit
      ensures rc == 0 || rc == -1
      ensures rc == 0 ==>
                && this.inputSize == inputSize && this.hiddenSize == hiddenSize
                && fresh(weights) && (forall i | 0 <= i < weights.Length :: weights[i] == InitialWeight(i))
                && fresh(biases) && biases.Length == hiddenSize * 4
                && (forall i | 0 <= i < biases.Length :: biases[i] == 0.0)
                && (Shaped() <==> (inputSize + hiddenSize) * (4 * hiddenSize) < WORD && 4 * hiddenSize <= INT_MAX + 1)
    {
      if inputSize <= 0 || hiddenSize <= 0 {
        return -1;
      }
      this.inputSize, this.hiddenSize := inputSize, hiddenSize;
      var total := inputSize * hiddenSize * 4 + hiddenSize * hiddenSize * 4;
      WeightCount(inputSize, hiddenSize);
      LastBiasIndex(hiddenSize);
      var wcount := total % WORD;
      if !weightsFit {
        weights := null;
        return -1;
      }
      var w := new real[wcount](_ => 0.0);
      if !biasesFit {
        weights, biases := null, null;
        return -1;
      }
      var b := new real[hiddenSize * 4](_ => 0.0);
      weights, biases := w, b;
      FillWeights(w);
      FillBiases(b);
      return 0;
    }

    static method FillWeights(w: array<real>)
      modifies w
      ensures forall k | 0 <= k < w.Length :: w[k] == InitialWeight(k)
    {
      for i := 0 to w.Length
        invariant forall k | 0 <= k < i :: w[k] == InitialWeight(k)
      {
        w[i] := InitialWeight(i);
      }
    }

    static method FillBiases(b: array<real>)
      modifies b
      ensures forall k | 0 <= k < b.Length :: b[k] == 0.0
    {
      for i := 0 to b.Length
        invariant forall k | 0 <= k < i :: b[k] == 0.0
      {
        b[i] := 0.0;
      }
    }

    /** One of the two inner loops: a column of weights against the input or the hidden vector. */
    method Accumulate(x: array<real>, from: nat, at: nat, n: nat) returns (sum: real)
      requires weights != null && hiddenSize > 0
      requires from + n <= x.Length && (n > 0 ==> at + (n - 1) * (4 * hiddenSize) < weights.Length)
      ensures sum == Dot(x[..], from, weights[..], at, 4 * hiddenSize, n)
    {
      sum := 0.0;
      for j := 0 to n
        invariant sum == Dot(x[..], from, weights[..], at, 4 * hiddenSize, j)
      {
        RowFits(j, n, 4 * hiddenSize);
        MulNonNegative(j, 4 * hiddenSize);
        sum := sum + x[from + j] * weights[at + j * (4 * hiddenSize)];
      }
    }

    /** wx + uh for hidden unit i; every index is within the arrays. */
    method DriveOf(input: array<real>, at: nat, h: array<real>, i: nat, ghost net: Net) returns (z: real)
      requires Shaped() && i < hiddenSize == h.Length && at + inputSize <= input.Length
      requires net == AsNet(net.sigmoid, net.tanh)
      ensures z == Drive(net, input[..], at, h[..], i)
    {
      ColumnsInBounds(inputSize, hiddenSize, i);
      var wx := Accumulate(input, at, i, inputSize);
      var uh := Accumulate(h, 0, inputSize * (4 * hiddenSize) + i, hiddenSize);
      z := wx + uh;
    }

    /** The rest of the loop body over hidden units, once the drive z of unit i is known. */
    method UpdateUnitInPlace(z: real, h: array<real>, c: array<real>, i: nat, sigmoid: real -> real, tanh: real -> real)
      requires biases != null && biases.Length >= 4 * hiddenSize && i < hiddenSize == h.Length == c.Length && h != c
      requires BiasIndicesFit(hiddenSize)
      modifies h, c
      ensures Cells(h[..], c[..]) == UpdateUnit(sigmoid, tanh, z, Cells(old(h[..]), old(c[..])), i)
    {
      var ig, fg := Gate(biases[i], z), Gate(biases[hiddenSize + i], z);
      var og, gg := Gate(biases[2 * hiddenSize + i], z), Gate(biases[LastBias(hiddenSize, i)], z);
      ig, fg, og, gg := Activate(sigmoid, ig), Activate(sigmoid, fg), Activate(sigmoid, og), Activate(tanh, gg);
      WriteUnit(h, c, i, ig, fg, og, gg, tanh);
    }

    /** One turn of the loop over hidden units. */
    method UnitStep(input: array<real>, at: nat, h: array<real>, c: array<real>, i: nat,
                    ghost net: Net, ghost st: Cells, sigmoid: real -> real, tanh: real -> real)
      requires Shaped() && i < hiddenSize == h.Length == c.Length && at + inputSize <= input.Length && h != c
      requires net == AsNet(sigmoid, tanh) && |st.h| == |st.c| == hiddenSize
      requires Cells(h[..], c[..]) == Sweep(net, input[..], at, st, i)
      modifies h, c
      ensures Cells(h[..], c[..]) == Sweep(net, old(input[..]), at, st, i + 1)
    {
      var z := DriveOf(input, at, h, i, net);
      UpdateUnitInPlace(z, h, c, i, sigmoid, tanh);
    }

    /** One time step. */
    method StepInPlace(input: array<real>, at: nat, h: array<real>, c: array<real>, ghost net: Net,
                       sigmoid: real -> real, tanh: real -> real)
      requires Shaped() && hiddenSize == h.Length == c.Length && at + inputSize <= input.Length
      requires net == AsNet(sigmoid, tanh)
      requires h != c && h != weights && c != weights && h != input && c != input
      modifies h, c
      ensures Cells(h[..], c[..]) == Sweep(net, input[..], at, Cells(old(h[..]), old(c[..])), hiddenSize)
    {
      ghost var st := Cells(h[..], c[..]);
      for i := 0 to hiddenSize
        invariant Cells(h[..], c[..]) == Sweep(net, input[..], at, st, i)
      {
        UnitStep(input, at, h, c, i, net, st, sigmoid, tanh);
      }
    }

    /** lstm_predict. input or out is null for a NULL pointer; allocates says whether calloc succeeds. */
    method Predict(input: array?<real>, len: nat, out: array?<real>, outlen: nat, allocates: bool,
                   sigmoid: real -> real, tanh: real -> real) returns (rc: int)
      requires Shaped()
      requires input != null ==> len * inputSize <= input.Length
      requires out != null ==> outlen <= out.Length
      modifies out
      ensures rc == 0 <==> input != null && out != null && outlen > 0 && allocates
      ensures rc == 0 || rc == -1
      ensures rc == 0 ==>
                var h := Run(old(AsNet(sigmoid, tanh)), old(input[..]), len).h;
                var n := if outlen < hiddenSize then outlen else hiddenSize;
                out[..] == h[..n] + old(out[..])[n..]
      ensures rc != 0 && out != null ==> out[..] == old(out[..])
    {
      if input == null || out == null || outlen == 0 || !allocates {
        return -1;
      }
      var h := new real[hiddenSize](_ => 0.0);
      var c := new real[hiddenSize](_ => 0.0);
      RunInPlace(input, len, h, c, AsNet(sigmoid, tanh), sigmoid, tanh);
      var outcount := if outlen < hiddenSize then outlen else hiddenSize;
      CopyOut(h, out, outcount);
      return 0;
    }

    /** The loop over time steps. */
    method RunInPlace(input: array<real>, len: nat, h: array<real>, c: array<real>, ghost net: Net,
                      sigmoid: real -> real, tanh: real -> real)
      requires Shaped() && hiddenSize == h.Length == c.Length && len * inputSize <= input.Length
      requires net == AsNet(sigmoid, tanh) && Cells(h[..], c[..]) == Start(hiddenSize)
      requires h != c && h != weights && c != weights && h != input && c != input
      modifies h, c
      ensures Cells(h[..], c[..]) == Run(net, input[..], len)
    {
      for t := 0 to len
        invariant Cells(h[..], c[..]) == Run(net, input[..], t)
      {
        RowFits(t, len, inputSize);
        TimeStep(input, t, h, c, net, sigmoid, tanh);
      }
    }

    /** One turn of it: the step's inputs start at t * inputSize. */
    method TimeStep(input: array<real>, t: nat, h: array<real>, c: array<real>, ghost net: Net,
                    sigmoid: real -> real, tanh: real -> real)
      requires Shaped() && hiddenSize == h.Length == c.Length && t * inputSize + inputSize <= input.Length
      requires net == AsNet(sigmoid, tanh) && Cells(h[..], c[..]) == Run(net, input[..], t)
      requires h != c && h != weights && c != weights && h != input && c != input
      modifies h, c
      ensures Cells(h[..], c[..]) == Run(net, input[..], t + 1)
    {
      MulNonNegative(t, inputSize);
      var at := t * inputSize;
      StepInPlace(input, at, h, c, net, sigmoid, tanh);
      assert (t + 1) - 1 == t;
    }
  }

  /**
   Two models that agree on the first quarter of every row of weights, whatever their biases, predict the same
   on every input.
   */
  method PredictAlike(a: Model, b: Model, input: array<real>, len: nat, outA: array<real>, outB: array<real>,
                      outlen: nat, sigmoid: real -> real, tanh: real -> real)
    requires a.Shaped() && b.Shaped() && AgreeOnFirstQuarter(a.AsNet(sigmoid, tanh), b.AsNet(sigmoid, tanh))
    requires len * a.inputSize <= input.Length && 0 < outlen <= outA.Length && outlen <= outB.Length
    requires outA != outB && outA != input && outA != b.weights
    modifies outA, outB
    ensures var n := if outlen < a.hiddenSize then outlen else a.hiddenSize;
            outA[..n] == outB[..n] == Run(old(a.AsNet(sigmoid, tanh)), old(input[..]), len).h[..n]
  {
    NonInterference(a.AsNet(sigmoid, tanh), b.AsNet(sigmoid, tanh), input[..], len);
    var rcA := a.Predict(input, len, outA, outlen, true, sigmoid, tanh);
    var rcB := b.Predict(input, len, outB, outlen, true, sigmoid, tanh);
  }

  /** The last of the four bias indices of every unit, and so each of them, fits an int. */
  ghost predicate BiasIndicesFit(hidden: int) {
    forall i | 0 <= i < hidden :: LastBias(hidden, i) <= INT_MAX
  }

  function LastBias(hidden: int, i: int): int {
    3 * hidden + i
  }

  lemma LastBiasIndex(hidden: int)
    requires hidden > 0
    ensures BiasIndicesFit(hidden) <==> 4 * hidden <= INT_MAX + 1
  {
    assert LastBias(hidden, hidden - 1) == 4 * hidden - 1;
  }

  lemma WeightCount(inputs: nat, hidden: nat)
    requires inputs > 0 && hidden > 0
    ensures inputs * hidden * 4 + hidden * hidden * 4 == (inputs + hidden) * (4 * hidden) > 0
  {
  }

  lemma MulNonNegative(a: nat, b: nat)
    ensures a * b >= 0
  {
  }

  lemma RowFits(t: nat, len: nat, size: nat)
    requires t < len
    ensures t * size + size <= len * size
    ensures t * size <= (len - 1) * size
  {
    var k := len - (t + 1);
    assert len * size == t * size + size + k * size && (len - 1) * size == t * size + k * size;
    assert k * size >= 0;
  }

  /** Both columns that unit i reads end inside the first (inputs + hidden) * 4 * hidden weights. */
  lemma ColumnsInBounds(inputs: nat, hidden: nat, i: nat)
    requires inputs > 0 && i < hidden
    ensures var s := 4 * hidden;
            && i + (inputs - 1) * s < (inputs + hidden) * s
            && inputs * s + i + (hidden - 1) * s < (inputs + hidden) * s
  {
  }
}
