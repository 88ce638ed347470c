/**
 * The feed-forward brain (neural/ffnn.go): layer shapes, the rational
 * tanh and the output squashing, the forward pass with and without
 * capturing hidden activations, sparse mutation's average step, and the
 * flattened weight format used for serialisation. float32 arithmetic is
 * modelled on reals; Gaussian draws and sqrt are parameters.
 */
module Ffnn {
  import opened SimMath
  import opened Wrappers

  const NumInputs: int := 28
  const NumOutputs: int := 3

  /** Layers[0] is the input size; Weights[l][j][k] feeds neuron j of layer l+1 from neuron k of layer l. */
  datatype FFNN = FFNN(layers: seq<int>, weights: seq<seq<seq<real>>>, biases: seq<seq<real>>)

  /** Every weight matrix is fanOut x fanIn and every bias vector fanOut long. */
  predicate WellShaped(nn: FFNN)
  {
    |nn.layers| >= 2 && |nn.weights| == |nn.layers| - 1 && |nn.biases| == |nn.weights| &&
    (forall l :: 0 <= l < |nn.layers| ==> nn.layers[l] >= 0) &&
    forall l :: 0 <= l < |nn.weights| ==> MatrixShaped(nn.weights[l], nn.biases[l], nn.layers[l], nn.layers[l + 1])
  }

  /** A fanOut x fanIn matrix with its fanOut biases. */
  predicate MatrixShaped(w: seq<seq<real>>, b: seq<real>, fanIn: int, fanOut: int)
  {
    |w| == fanOut && |b| == fanOut && forall j :: 0 <= j < fanOut ==> |w[j]| == fanIn
  }

  /** Layer sizes of a new network: the inputs, the hidden sizes asked for, the outputs. */
  function LayerSizes(hidden: seq<int>): (r: seq<int>)
    ensures |r| == |hidden| + 2 && r[0] == NumInputs && r[|r| - 1] == NumOutputs
    ensures r[1..|r| - 1] == hidden
  {
    [NumInputs] + hidden + [NumOutputs]
  }

  /** The Xavier scale sqrt(2 / fanIn); sqrt is a parameter. */
  function XavierScale(fanIn: int, sqrt: real -> real): real
  {
    if fanIn > 0 then sqrt(2.0 / fanIn as real) else 0.0
  }

  /**
   * NewFFNN: shaped from the hidden sizes, each weight a scaled draw of
   * normal(l, j, k), every bias 0 except the bite output's -2.
   */
  function NewFFNN(hidden: seq<int>, normal: (int, int, int) -> real, sqrt: real -> real): (nn: FFNN)
    requires forall i :: 0 <= i < |hidden| ==> hidden[i] >= 0
    ensures WellShaped(nn) && nn.layers == LayerSizes(hidden)
    ensures |nn.weights| == |hidden| + 1
    ensures forall l, j :: 0 <= l < |nn.weights| - 1 && 0 <= j < |nn.biases[l]| ==> nn.biases[l][j] == 0.0
    ensures nn.biases[|nn.biases| - 1] == [0.0, 0.0, -2.0]
  {
    var layers := LayerSizes(hidden);
    var weights := InitWeights(layers, normal, sqrt);
    var biases := InitBiases(layers);
    AssembledShaped(layers, weights, biases);
    FFNN(layers, weights, biases)
  }

  /** Matrices and bias vectors sized layer to layer make a well-shaped network. */
  lemma AssembledShaped(layers: seq<int>, weights: seq<seq<seq<real>>>, biases: seq<seq<real>>)
    requires |layers| >= 2 && forall l :: 0 <= l < |layers| ==> layers[l] >= 0
    requires |weights| == |layers| - 1 && |biases| == |weights|
    requires forall l :: 0 <= l < |weights| ==>
      |weights[l]| == layers[l + 1] && forall j :: 0 <= j < layers[l + 1] ==> |weights[l][j]| == layers[l]
    requires forall l :: 0 <= l < |biases| ==> |biases[l]| == layers[l + 1]
    ensures WellShaped(FFNN(layers, weights, biases))
  {
    forall l | 0 <= l < |weights|
      ensures MatrixShaped(weights[l], biases[l], layers[l], layers[l + 1])
    {
    }
  }

  /** The fanOut x fanIn Xavier-scaled draws for matrix l. */
  function InitMatrix(l: int, fanIn: int, fanOut: int, normal: (int, int, int) -> real, sqrt: real -> real): (w: seq<seq<real>>)
    requires fanIn >= 0 && fanOut >= 0
    ensures |w| == fanOut && forall j :: 0 <= j < fanOut ==> |w[j]| == fanIn
  {
    seq(fanOut, j => seq(fanIn, k => normal(l, j, k) * XavierScale(fanIn, sqrt)))
  }

  function InitWeights(layers: seq<int>, normal: (int, int, int) -> real, sqrt: real -> real): (w: seq<seq<seq<real>>>)
    requires |layers| >= 2 && forall l :: 0 <= l < |layers| ==> layers[l] >= 0
    ensures |w| == |layers| - 1
    ensures forall l :: 0 <= l < |w| ==> |w[l]| == layers[l + 1] && forall j :: 0 <= j < layers[l + 1] ==> |w[l][j]| == layers[l]
  {
    seq(|layers| - 1, l requires 0 <= l < |layers| - 1 => InitMatrix(l, layers[l], layers[l + 1], normal, sqrt))
  }

  /** Zero biases, except the output layer's thrust (0) and bite (-2). */
  function InitBiases(layers: seq<int>): (b: seq<seq<real>>)
    requires |layers| >= 2 && layers[|layers| - 1] == NumOutputs && forall l :: 0 <= l < |layers| ==> layers[l] >= 0
    ensures |b| == |layers| - 1
    ensures forall l :: 0 <= l < |b| ==> |b[l]| == layers[l + 1]
    ensures forall l, j :: 0 <= l < |b| - 1 && 0 <= j < |b[l]| ==> b[l][j] == 0.0
    ensures b[|b| - 1] == [0.0, 0.0, -2.0]
  {
    var n := |layers| - 1;
    seq(n, l requires 0 <= l < n => if l == n - 1 then [0.0, 0.0, -2.0] else Zeros(layers[l + 1]))
  }

  function Zeros(n: int): (z: seq<real>)
    requires n >= 0
    ensures |z| == n && forall i :: 0 <= i < n ==> z[i] == 0.0
  {
    seq(n, i => 0.0)
  }

  /** HiddenLayerSizes: nil for two layers or fewer, otherwise everything between input and output. */
  function HiddenLayerSizes(nn: FFNN): (r: seq<int>)
    ensures |nn.layers| <= 2 ==> r == []
    ensures |nn.layers| > 2 ==> |r| == |nn.layers| - 2 && forall i :: 0 <= i < |r| ==> r[i] == nn.layers[i + 1]
  {
    if |nn.layers| <= 2 then [] else nn.layers[1..|nn.layers| - 1]
  }

  /** A new network reports exactly the hidden sizes it was built with. */
  lemma NewFFNNHiddenSizes(hidden: seq<int>, normal: (int, int, int) -> real, sqrt: real -> real)
    requires forall i :: 0 <= i < |hidden| ==> hidden[i] >= 0
    ensures HiddenLayerSizes(NewFFNN(hidden, normal, sqrt)) == hidden
  {
    var nn := NewFFNN(hidden, normal, sqrt);
    if |hidden| > 0 {
      assert nn.layers[1..|nn.layers| - 1] == hidden;
    }
  }

  /** TotalHiddenNeurons: the hidden sizes summed. */
  function TotalHidden(sizes: seq<int>): (r: int)
    ensures (forall i :: 0 <= i < |sizes| ==> sizes[i] >= 0) ==> r >= 0
    ensures (forall i :: 0 <= i < |sizes| ==> sizes[i] >= 0) ==> forall i :: 0 <= i < |sizes| ==> sizes[i] <= r
    decreases |sizes|
  {
    if |sizes| == 0 then 0
    else
      assert forall i :: 1 <= i < |sizes| ==> sizes[i] == sizes[1..][i - 1];
      sizes[0] + TotalHidden(sizes[1..])
  }

  function TotalHiddenNeurons(nn: FFNN): (r: int)
    ensures WellShaped(nn) ==> r >= 0
    ensures |nn.layers| <= 2 ==> r == 0
  {
    TotalHidden(HiddenLayerSizes(nn))
  }

  /** saturate01: clamps into [0, 1]. */
  function Saturate01(x: real): (r: real)
    ensures 0.0 <= r <= 1.0
    ensures 0.0 <= x <= 1.0 ==> r == x
    ensures x <= 0.0 ==> r == 0.0
    ensures x >= 1.0 ==> r == 1.0
  {
    if x <= 0.0 then 0.0 else if x >= 1.0 then 1.0 else x
  }

  /** The rational approximation x (27 + x^2) / (27 + 9 x^2) of tanh. */
  function Rational(x: real): real
  {
    SquareNonNegative(x);
    x * (27.0 + x * x) / (27.0 + 9.0 * (x * x))
  }

  /** The approximation is exactly 1 at 3, and at most 1 (at least -1) on [-3, 3]. */
  lemma RationalBetween(x: real)
    requires -3.0 <= x <= 3.0
    ensures -1.0 <= Rational(x) <= 1.0
  {
    SquareNonNegative(x);
    var den := 27.0 + 9.0 * (x * x);
    var num := x * (27.0 + x * x);
    var d := 3.0 - x;
    var e := x + 3.0;
    assert den - num == d * d * d;
    assert den + num == e * e * e;
    SquareNonNegative(d);
    SquareNonNegative(e);
    MulMonotone(d, 0.0, d * d);
    MulMonotone(e, 0.0, e * e);
    assert d * (d * d) == d * d * d;
    assert e * (e * e) == e * e * e;
    assert -1.0 * den <= num <= 1.0 * den;
    AverageBetween(num, den, -1.0, 1.0);
  }

  lemma RationalOdd(x: real)
    ensures Rational(-x) == -Rational(x)
  {
    assert (-x) * (-x) == x * x;
  }

  /** tanh exactly as written: saturating only beyond |x| > 4. */
  function TanhAsWritten(x: real): (r: real)
    ensures x > 4.0 ==> r == 1.0
    ensures x < -4.0 ==> r == -1.0
  {
    if x > 4.0 then 1.0 else if x < -4.0 then -1.0 else Rational(x)
  }

  /** Between 3 and 4 the written tanh rises above 1: at 3.5 it is 137.375 / 137.25. */
  lemma TanhOvershoots()
    ensures TanhAsWritten(3.5) > 1.0
  {
    assert Rational(3.5) == 137.375 / 137.25;
  }

  /**
   * tanh with the saturation point where the approximation reaches 1:
   * odd, within [-1, 1], ±1 beyond |x| > 3 and hence beyond |x| > 4.
   */
  function Tanh(x: real): (r: real)
    ensures -1.0 <= r <= 1.0
    ensures x > 3.0 ==> r == 1.0
    ensures x < -3.0 ==> r == -1.0
    ensures -3.0 <= x <= 3.0 ==> r == TanhAsWritten(x)
    ensures x > 0.0 ==> r > 0.0
    ensures x < 0.0 ==> r < 0.0
  {
    if x > 3.0 then 1.0
    else if x < -3.0 then -1.0
    else
      RationalBetween(x);
      SquareNonNegative(x);
      assert x > 0.0 ==> x * (27.0 + x * x) > 0.0;
      assert x < 0.0 ==> x * (27.0 + x * x) < 0.0;
      Rational(x)
  }

  lemma TanhOdd(x: real)
    ensures Tanh(-x) == -Tanh(x)
  {
    RationalOdd(x);
  }

  /** Σ w[k] x[k] over the inputs present. */
  function Dot(w: seq<real>, x: seq<real>): real
    requires |x| <= |w|
    decreases |x|
  {
    if |x| == 0 then 0.0 else Dot(w, x[..|x| - 1]) + w[|x| - 1] * x[|x| - 1]
  }

  /** One hidden layer: tanh of bias plus weighted inputs, per neuron. */
  function Activate(w: seq<seq<real>>, b: seq<real>, x: seq<real>): (r: seq<real>)
    requires |w| >= |b| && forall j :: 0 <= j < |b| ==> |x| <= |w[j]|
    ensures |r| == |b|
    ensures forall j :: 0 <= j < |r| ==> -1.0 <= r[j] <= 1.0
  {
    seq(|b|, j requires 0 <= j < |b| => Tanh(b[j] + Dot(w[j], x)))
  }

  /** The network can run on these inputs: output layer of NumOutputs, no more inputs than the first layer takes. */
  predicate Runnable(nn: FFNN, inputs: seq<real>)
  {
    WellShaped(nn) && nn.layers[|nn.layers| - 1] == NumOutputs && |inputs| <= nn.layers[0]
  }

  /** The activations of the first n hidden layers; each feeds the next. */
  function Capture(nn: FFNN, inputs: seq<real>, n: int): (acts: seq<seq<real>>)
    requires Runnable(nn, inputs) && 0 <= n <= |nn.weights| - 1
    ensures |acts| == n
    ensures forall l :: 0 <= l < n ==> |acts[l]| == nn.layers[l + 1]
    ensures forall l, j :: 0 <= l < n && 0 <= j < |acts[l]| ==> -1.0 <= acts[l][j] <= 1.0
    decreases n
  {
    if n == 0 then []
    else
      var prev := Capture(nn, inputs, n - 1);
      var x := if n == 1 then inputs else prev[n - 2];
      assert |x| <= nn.layers[n - 1];
      assert MatrixShaped(nn.weights[n - 1], nn.biases[n - 1], nn.layers[n - 1], nn.layers[n]);
      prev + [Activate(nn.weights[n - 1], nn.biases[n - 1], x)]
  }

  /** What the output layer reads: the last hidden layer, or the inputs when there is none. */
  function LastHidden(nn: FFNN, inputs: seq<real>): (x: seq<real>)
    requires Runnable(nn, inputs)
    ensures |x| <= nn.layers[|nn.layers| - 2]
  {
    var n := |nn.weights| - 1;
    if n == 0 then inputs else Capture(nn, inputs, n)[n - 1]
  }

  /** The raw output sums. */
  function RawOutputs(nn: FFNN, inputs: seq<real>): (o: seq<real>)
    requires Runnable(nn, inputs)
    ensures |o| == NumOutputs
    ensures forall i :: 0 <= i < NumOutputs ==>
      o[i] == nn.biases[|nn.weights| - 1][i] + Dot(nn.weights[|nn.weights| - 1][i], LastHidden(nn, inputs))
  {
    var last := |nn.weights| - 1;
    var x := LastHidden(nn, inputs);
    seq(NumOutputs, j requires 0 <= j < NumOutputs => nn.biases[last][j] + Dot(nn.weights[last][j], x))
  }

  datatype Outputs = Outputs(turn: real, thrust: real, bite: real)

  /** Forward: turn in [-1, 1], thrust and bite in [0, 1], each read off its own output sum. */
  function Forward(nn: FFNN, inputs: seq<real>): (r: Outputs)
    requires Runnable(nn, inputs)
    ensures -1.0 <= r.turn <= 1.0 && 0.0 <= r.thrust <= 1.0 && 0.0 <= r.bite <= 1.0
    ensures var o := RawOutputs(nn, inputs);
      (o[0] > 0.0 <==> r.turn > 0.0) && (o[1] >= 1.0 <==> r.thrust == 1.0) && (o[2] <= -1.0 <==> r.bite == 0.0)
  {
    var o := RawOutputs(nn, inputs);
    TanhSign(o[0]);
    Outputs(Tanh(o[0]), Saturate01(o[1] * 0.5 + 0.5), Saturate01(o[2] * 0.5 + 0.5))
  }

  lemma TanhSign(x: real)
    ensures Tanh(x) > 0.0 <==> x > 0.0
  {
  }

  datatype Activations = Activations(inputs: seq<real>, hidden: seq<seq<real>>, outputs: seq<real>)

  /**
   * ForwardWithCapture: the same outputs as Forward, with the inputs, one
   * activation vector per hidden layer (the hidden layers Forward feeds
   * through) and the three squashed outputs recorded.
   */
  method ForwardWithCapture(nn: FFNN, inputs: seq<real>) returns (out: Outputs, act: Activations)
    requires Runnable(nn, inputs)
    ensures out == Forward(nn, inputs)
    ensures act.inputs == inputs && act.outputs == [out.turn, out.thrust, out.bite]
    ensures |act.hidden| == |nn.layers| - 2 && act.hidden == Capture(nn, inputs, |nn.layers| - 2)
  {
    var hidden, current := HiddenLoop(nn, inputs);
    var o := OutputLoop(nn, current);
    OutputsAreRaw(nn, inputs, o);
    out := Outputs(Tanh(o[0]), Saturate01(o[1] * 0.5 + 0.5), Saturate01(o[2] * 0.5 + 0.5));
    act := Activations(inputs, hidden, [out.turn, out.thrust, out.bite]);
  }

  /** The hidden layers in turn, each recorded, ending on what the output layer reads. */
  method HiddenLoop(nn: FFNN, inputs: seq<real>) returns (hidden: seq<seq<real>>, current: seq<real>)
    requires Runnable(nn, inputs)
    ensures hidden == Capture(nn, inputs, |nn.weights| - 1)
    ensures current == LastHidden(nn, inputs)
  {
    hidden := [];
    current := inputs;
    var l := 0;
    while l < |nn.weights| - 1
      invariant 0 <= l <= |nn.weights| - 1
      invariant hidden == Capture(nn, inputs, l)
      invariant current == if l == 0 then inputs else hidden[l - 1]
    {
      assert MatrixShaped(nn.weights[l], nn.biases[l], nn.layers[l], nn.layers[l + 1]);
      var next := LayerLoop(nn.weights[l], nn.biases[l], current);
      hidden := hidden + [next];
      current := next;
      l := l + 1;
    }
  }

  /** Sums of the last matrix over what the output layer reads are the raw outputs. */
  lemma OutputsAreRaw(nn: FFNN, inputs: seq<real>, o: seq<real>)
    requires Runnable(nn, inputs) && |o| == NumOutputs
    requires forall i :: 0 <= i < NumOutputs ==>
      o[i] == nn.biases[|nn.weights| - 1][i] + Dot(nn.weights[|nn.weights| - 1][i], LastHidden(nn, inputs))
    ensures o == RawOutputs(nn, inputs)
  {
    var r := RawOutputs(nn, inputs);
    forall i | 0 <= i < NumOutputs
      ensures o[i] == r[i]
    {
    }
  }

  /** The per-neuron loop of one hidden layer. */
  method LayerLoop(w: seq<seq<real>>, b: seq<real>, x: seq<real>) returns (next: seq<real>)
    requires |w| >= |b| && forall j :: 0 <= j < |b| ==> |x| <= |w[j]|
    ensures next == Activate(w, b, x)
  {
    next := [];
    var j := 0;
    while j < |b|
      invariant 0 <= j <= |b| && |next| == j
      invariant forall i :: 0 <= i < j ==> next[i] == Tanh(b[i] + Dot(w[i], x))
    {
      var sum := DotLoop(w[j], x);
      next := next + [Tanh(b[j] + sum)];
      j := j + 1;
    }
  }

  /** The output-layer loop: raw sums of the last weight matrix over what it reads. */
  method OutputLoop(nn: FFNN, x: seq<real>) returns (o: seq<real>)
    requires WellShaped(nn) && nn.layers[|nn.layers| - 1] == NumOutputs && |x| <= nn.layers[|nn.layers| - 2]
    ensures |o| == NumOutputs
    ensures forall i :: 0 <= i < NumOutputs ==> o[i] == nn.biases[|nn.weights| - 1][i] + Dot(nn.weights[|nn.weights| - 1][i], x)
  {
    var last := |nn.weights| - 1;
    o := [];
    var j := 0;
    while j < NumOutputs
      invariant 0 <= j <= NumOutputs && |o| == j
      invariant forall i :: 0 <= i < j ==> o[i] == nn.biases[last][i] + Dot(nn.weights[last][i], x)
    {
      var sum := DotLoop(nn.weights[last][j], x);
      o := o + [nn.biases[last][j] + sum];
      j := j + 1;
    }
  }

  /** The inner accumulation loop: bias-free weighted sum over the current activations. */
  method DotLoop(w: seq<real>, x: seq<real>) returns (sum: real)
    requires |x| <= |w|
    ensures sum == Dot(w, x)
  {
    sum := 0.0;
    var k := 0;
    while k < |x|
      invariant 0 <= k <= |x|
      invariant sum == Dot(w, x[..k])
    {
      assert x[..k + 1][..k] == x[..k];
      sum := sum + w[k] * x[k];
      k := k + 1;
    }
    assert x[..|x|] == x;
  }

  /** The step sparse mutation takes at one weight or bias: None when it does not fire. */
  function SparseDelta(u: real, rate: real, uBig: real, bigRate: real, n: real, sigma: real, bigSigma: real): (d: Option<real>)
    ensures u >= rate <==> d.None?
    ensures d.Some? && uBig < bigRate ==> d.value == n * bigSigma
    ensures d.Some? && uBig >= bigRate ==> d.value == n * sigma
  {
    if u < rate then Some(if uBig < bigRate then n * bigSigma else n * sigma) else None
  }

  function Fired(ds: seq<Option<real>>): (r: nat)
    ensures r <= |ds|
    ensures r == 0 <==> forall i :: 0 <= i < |ds| ==> ds[i].None?
    decreases |ds|
  {
    if |ds| == 0 then 0
    else
      assert forall i :: 1 <= i < |ds| ==> ds[i] == ds[1..][i - 1];
      (if ds[0].Some? then 1 else 0) + Fired(ds[1..])
  }

  function TotalAbs(ds: seq<Option<real>>): (r: real)
    decreases |ds|
  {
    if |ds| == 0 then 0.0 else (if ds[0].Some? then Abs(ds[0].value) else 0.0) + TotalAbs(ds[1..])
  }

  /** n copies of x added up. */
  function Times(n: nat, x: real): real
  {
    if n == 0 then 0.0 else Times(n - 1, x) + x
  }

  lemma {:induction false} TimesIsProduct(n: nat, x: real)
    ensures Times(n, x) == n as real * x
  {
    if n > 0 {
      TimesIsProduct(n - 1, x);
      assert n as real * x == (n - 1) as real * x + x;
    }
  }

  /** The total absolute step is at most the largest step once per fired step. */
  lemma {:induction false} TotalAbsBounds(ds: seq<Option<real>>, hi: real)
    requires forall i :: 0 <= i < |ds| && ds[i].Some? ==> Abs(ds[i].value) <= hi
    ensures 0.0 <= TotalAbs(ds) <= Times(Fired(ds), hi)
    decreases |ds|
  {
    if |ds| > 0 {
      var rest := ds[1..];
      assert forall i :: 0 <= i < |rest| && rest[i].Some? ==> Abs(rest[i].value) <= hi by {
        forall i | 0 <= i < |rest| && rest[i].Some?
          ensures Abs(rest[i].value) <= hi
        {
          assert rest[i] == ds[i + 1];
        }
      }
      TotalAbsBounds(rest, hi);
    }
  }

  /**
   * MutateSparse's result: the mean absolute step over the steps that
   * fired, 0 when none did; never negative and never above the largest step.
   */
  function AvgAbsDelta(ds: seq<Option<real>>, hi: real): (r: real)
    requires forall i :: 0 <= i < |ds| && ds[i].Some? ==> Abs(ds[i].value) <= hi
    ensures Fired(ds) == 0 ==> r == 0.0
    ensures 0.0 <= r
    ensures Fired(ds) > 0 ==> r <= hi
  {
    TotalAbsBounds(ds, hi);
    TimesIsProduct(Fired(ds), hi);
    if Fired(ds) == 0 then 0.0
    else
      assert 0.0 * Fired(ds) as real <= TotalAbs(ds) <= hi * Fired(ds) as real;
      AverageBetween(TotalAbs(ds), Fired(ds) as real, 0.0, hi);
      TotalAbs(ds) / Fired(ds) as real
  }

  /** BrainWeights: the layer sizes, each weight matrix flattened row-major, the biases. */
  datatype BrainWeights = BrainWeights(layers: seq<int>, weights: seq<seq<real>>, biases: seq<seq<real>>)

  /** The flat position of entry (j, k) of a matrix with fanIn columns. */
  function RowMajor(j: int, k: int, fanIn: int): int
  {
    j * fanIn + k
  }

  /** Row-major flattening of fanOut rows of fanIn weights. */
  function Flatten(rows: seq<seq<real>>, fanIn: int, fanOut: int): (flat: seq<real>)
    requires Flattenable(rows, fanIn, fanOut)
    ensures |flat| == fanIn * fanOut
    ensures forall j, k :: 0 <= j < fanOut && 0 <= k < fanIn ==> RowMajor(j, k, fanIn) < |flat| && flat[RowMajor(j, k, fanIn)] == rows[j][k]
  {
    RowMajorSize(fanIn, fanOut);
    var flat := seq(fanIn * fanOut, i requires 0 <= i < fanIn * fanOut => rows[i / fanIn][i % fanIn]);
    forall j, k | 0 <= j < fanOut && 0 <= k < fanIn
      ensures RowMajor(j, k, fanIn) < |flat| && flat[RowMajor(j, k, fanIn)] == rows[j][k]
    {
      RowMajorIndex(j, k, fanIn, fanOut);
    }
    flat
  }

  lemma RowMajorSize(fanIn: int, fanOut: int)
    requires fanIn >= 0 && fanOut >= 0
    ensures fanIn * fanOut >= 0
    ensures forall i :: 0 <= i < fanIn * fanOut ==> 0 <= i / fanIn < fanOut && 0 <= i % fanIn < fanIn
  {
    forall i | 0 <= i < fanIn * fanOut
      ensures 0 <= i / fanIn < fanOut && 0 <= i % fanIn < fanIn
    {
      assert fanIn > 0;
      var q := i / fanIn;
      assert q * fanIn <= i;
      if q >= fanOut {
        MulLe(fanOut, q, fanIn);
        assert false;
      }
    }
  }

  /** Entry (j, k) of a fanOut x fanIn matrix sits at j * fanIn + k, inside the flat range. */
  lemma RowMajorIndex(j: int, k: int, fanIn: int, fanOut: int)
    requires 0 <= j < fanOut && 0 <= k < fanIn
    ensures 0 <= RowMajor(j, k, fanIn) < fanIn * fanOut
    ensures RowMajor(j, k, fanIn) / fanIn == j && RowMajor(j, k, fanIn) % fanIn == k
  {
    MulLe(j + 1, fanOut, fanIn);
    ModUnique(j * fanIn + k, fanIn, j, k);
  }

  /** The network can be flattened: enough layer sizes, biases, rows and columns for every matrix. */
  predicate Marshallable(nn: FFNN)
  {
    |nn.layers| > |nn.weights| && |nn.biases| >= |nn.weights| &&
    (forall l :: 0 <= l < |nn.layers| ==> nn.layers[l] >= 0) &&
    forall l :: 0 <= l < |nn.weights| ==> Flattenable(nn.weights[l], nn.layers[l], nn.layers[l + 1])
  }

  /** At least fanOut rows of at least fanIn weights. */
  predicate Flattenable(rows: seq<seq<real>>, fanIn: int, fanOut: int)
  {
    fanIn >= 0 && 0 <= fanOut <= |rows| && forall j :: 0 <= j < fanOut ==> fanIn <= |rows[j]|
  }

  /** Matrix l flattened. */
  function FlatLayer(nn: FFNN, l: int): (flat: seq<real>)
    requires Marshallable(nn) && 0 <= l < |nn.weights|
    ensures |flat| == nn.layers[l] * nn.layers[l + 1]
    ensures forall j, k :: 0 <= j < nn.layers[l + 1] && 0 <= k < nn.layers[l] ==>
      0 <= RowMajor(j, k, nn.layers[l]) < |flat| && flat[RowMajor(j, k, nn.layers[l])] == nn.weights[l][j][k]
  {
    assert Flattenable(nn.weights[l], nn.layers[l], nn.layers[l + 1]);
    Flatten(nn.weights[l], nn.layers[l], nn.layers[l + 1])
  }

  /**
   * MarshalWeights: the sizes copied, matrix l flattened to fanIn * fanOut
   * entries in row-major order, the biases of every matrix copied and any
   * further bias slots left empty.
   */
  function MarshalWeights(nn: FFNN): (bw: BrainWeights)
    requires Marshallable(nn)
    ensures bw.layers == nn.layers && |bw.weights| == |nn.weights| && |bw.biases| == |nn.biases|
    ensures forall l :: 0 <= l < |nn.weights| ==> |bw.weights[l]| == nn.layers[l] * nn.layers[l + 1] && bw.biases[l] == nn.biases[l]
    ensures forall l, j, k :: 0 <= l < |nn.weights| && 0 <= j < nn.layers[l + 1] && 0 <= k < nn.layers[l] ==>
      0 <= RowMajor(j, k, nn.layers[l]) < |bw.weights[l]| && bw.weights[l][RowMajor(j, k, nn.layers[l])] == nn.weights[l][j][k]
  {
    var weights := seq(|nn.weights|, l requires 0 <= l < |nn.weights| => FlatLayer(nn, l));
    var biases := seq(|nn.biases|, l requires 0 <= l < |nn.biases| => if l < |nn.weights| then nn.biases[l] else []);
    BrainWeights(nn.layers, weights, biases)
  }

  /** The flattened form can be read back: enough sizes and bias vectors for every matrix. */
  predicate Unmarshallable(bw: BrainWeights)
  {
    |bw.layers| > |bw.weights| && |bw.biases| >= |bw.weights| &&
    forall l :: 0 <= l < |bw.layers| ==> bw.layers[l] >= 0
  }

  /** copy into a fresh zero vector of length n: the common prefix, zeros after. */
  function CopyInto(n: int, src: seq<real>): (r: seq<real>)
    requires n >= 0
    ensures |r| == n
    ensures forall i :: 0 <= i < n ==> r[i] == (if i < |src| then src[i] else 0.0)
  {
    seq(n, i requires 0 <= i < n => if i < |src| then src[i] else 0.0)
  }

  /** Row j of matrix l rebuilt from its flat form, reading 0 past the end. */
  function Unflatten(flat: seq<real>, fanIn: int, fanOut: int): (rows: seq<seq<real>>)
    requires fanIn >= 0 && fanOut >= 0
    ensures |rows| == fanOut && forall j :: 0 <= j < fanOut ==> |rows[j]| == fanIn
    ensures forall j, k :: 0 <= j < fanOut && 0 <= k < fanIn ==>
      rows[j][k] == (if RowMajor(j, k, fanIn) < |flat| then flat[RowMajor(j, k, fanIn)] else 0.0)
  {
    seq(fanOut, j requires 0 <= j < fanOut => seq(fanIn, k requires 0 <= k < fanIn =>
      if RowMajor(j, k, fanIn) < |flat| then flat[RowMajor(j, k, fanIn)] else 0.0))
  }

  /** Matrix l read back. */
  function UnflatLayer(bw: BrainWeights, l: int): (rows: seq<seq<real>>)
    requires Unmarshallable(bw) && 0 <= l < |bw.weights|
    ensures |rows| == bw.layers[l + 1] && forall j :: 0 <= j < |rows| ==> |rows[j]| == bw.layers[l]
    ensures forall j, k :: 0 <= j < bw.layers[l + 1] && 0 <= k < bw.layers[l] ==>
      rows[j][k] == (if RowMajor(j, k, bw.layers[l]) < |bw.weights[l]| then bw.weights[l][RowMajor(j, k, bw.layers[l])] else 0.0)
  {
    Unflatten(bw.weights[l], bw.layers[l], bw.layers[l + 1])
  }

  /**
   * UnmarshalWeights: fanOut x fanIn matrices read row-major (missing
   * entries 0), bias vectors of fanOut copied from the stored ones, and
   * bias slots beyond the matrices left empty.
   */
  function UnmarshalWeights(bw: BrainWeights): (nn: FFNN)
    requires Unmarshallable(bw)
    ensures nn.layers == bw.layers && |nn.weights| == |bw.weights| && |nn.biases| == |bw.biases|
    ensures forall l :: 0 <= l < |bw.weights| ==>
      |nn.weights[l]| == bw.layers[l + 1] && |nn.biases[l]| == bw.layers[l + 1] &&
      forall j :: 0 <= j < bw.layers[l + 1] ==> |nn.weights[l][j]| == bw.layers[l]
  {
    var weights := seq(|bw.weights|, l requires 0 <= l < |bw.weights| => UnflatLayer(bw, l));
    var biases := seq(|bw.biases|, l requires 0 <= l < |bw.biases| =>
      if l < |bw.weights| then CopyInto(bw.layers[l + 1], bw.biases[l]) else []);
    FFNN(bw.layers, weights, biases)
  }

  /** Unmarshalling what was marshalled restores a well-shaped network exactly. */
  lemma MarshalRoundTrip(nn: FFNN)
    requires WellShaped(nn)
    ensures Marshallable(nn)
    ensures Unmarshallable(MarshalWeights(nn))
    ensures UnmarshalWeights(MarshalWeights(nn)) == nn
  {
    var bw := MarshalWeights(nn);
    var back := UnmarshalWeights(bw);
    forall l | 0 <= l < |nn.weights|
      ensures back.weights[l] == nn.weights[l] && back.biases[l] == nn.biases[l]
    {
      forall j | 0 <= j < nn.layers[l + 1]
        ensures back.weights[l][j] == nn.weights[l][j]
      {
        forall k | 0 <= k < nn.layers[l]
          ensures back.weights[l][j][k] == nn.weights[l][j][k]
        {
        }
      }
    }
  }

  /** Every well-shaped network the model builds or reads back is runnable on a full input vector. */
  lemma NewFFNNRunnable(hidden: seq<int>, normal: (int, int, int) -> real, sqrt: real -> real, inputs: seq<real>)
    requires forall i :: 0 <= i < |hidden| ==> hidden[i] >= 0
    requires |inputs| == NumInputs
    ensures Runnable(NewFFNN(hidden, normal, sqrt), inputs)
  {
  }
}
