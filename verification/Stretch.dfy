/** The sample-stretching loop of meter/wired_electrical_param.c: a cycle of n samples made m long. */
module Stretch {

  type Short = v: int | -0x8000 <= v < 0x8000

  const CHANNEL: nat := 250

  /** What clearing the buffer leaves in a slot without a sample. */
  const UNFILLED: Short := -1

  /** The mean of two samples, truncated towards zero. */
  function Mean(a: Short, b: Short): Short {
    if a + b >= 0 then (a + b) / 2 else -(-(a + b) / 2)
  }

  /** Twice the mean is the sum of the two samples, or misses it by one on the side of zero. */
  lemma MeanRounds(a: Short, b: Short)
    ensures var (double, sum) := (2 * Mean(a, b), a + b);
      && -1 <= double - sum <= 1
      && (sum >= 0 ==> double <= sum) && (sum <= 0 ==> double >= sum)
      && Mean(a, b) == Mean(b, a)
  {
  }

  /** A cycle can be stretched to m samples if at least half of them are there. */
  predicate Stretchable(n: nat, m: nat) {
    n < m && 2 * n >= m && m < CHANNEL
  }

  /** The distance of the insertions: one after every step - 1 samples. */
  function InsertStep(n: nat, m: nat): nat
    requires n < m
  {
    m / (m - n)
  }

  lemma StepIsTwo(n: nat, m: nat)
    requires Stretchable(n, m)
    ensures InsertStep(n, m) >= 2 && (m - n) * InsertStep(n, m) <= m
  {
    DivisionBounds(m, m - n);
  }

  lemma DivisionBounds(m: nat, d: nat)
    requires d > 0
    ensures d * (m / d) <= m < d * (m / d + 1)
  {
  }

  lemma MulUp(a: nat, b: nat, c: nat)
    requires a <= b
    ensures a * c <= b * c && c * a <= c * b
  {
  }

  /** The i-th insertion falls inside the samples so far, except that the last one may fall right
      behind them, and then it is the last position of the cycle. */
  lemma InsertionFits(n: nat, m: nat, i: nat)
    requires Stretchable(n, m) && i < m - n
    ensures var step := InsertStep(n, m);
      var p := (i + 1) * step - 1;
      1 <= p <= n + i && p < m && (p == n + i <==> p == m - 1) && (p == m - 1 ==> i + 1 == m - n)
  {
    StepIsTwo(n, m);
    var (d, step) := (m - n, InsertStep(n, m));
    var k := i + 1;
    MulUp(1, k, step);
    MulUp(k, d, step);
    Distribute(k, step);
    Distribute(d, step);
    MulUp(k, d, step - 1);
    if k < d {
      MulUp(k, d - 1, step - 1);
      MulUp(k, d - 1, step);
      assert (d - 1) * (step - 1) == d * (step - 1) - (step - 1);
      assert (d - 1) * step == d * step - step;
    }
  }

  lemma Distribute(k: nat, step: nat)
    requires step > 0
    ensures k * (step - 1) == k * step - k
  {
  }

  /** The samples after i insertions. */
  function Inserted(s: seq<Short>, m: nat, i: nat): (r: seq<Short>)
    requires Stretchable(|s|, m) && i <= m - |s|
    ensures |r| == |s| + i
  {
    if i == 0 then s
    else
      var t := Inserted(s, m, i - 1);
      InsertionFits(|s|, m, i - 1);
      InsertMean(t, m, i * InsertStep(|s|, m) - 1)
  }

  /** The mean of its neighbours put at position p; the last position of the cycle wraps to its start. */
  function InsertMean(t: seq<Short>, m: nat, p: nat): (r: seq<Short>)
    requires 1 <= p <= |t| && (p == |t| ==> p == m - 1)
    ensures |r| == |t| + 1
  {
    t[..p] + [Mean(t[p - 1], if p == m - 1 then t[0] else t[p])] + t[p..]
  }

  // ----- what the result is -----

  /** After i insertions: behind every step - 1 samples stands a mean, and the samples keep their
      order. */
  ghost predicate Shape(s: seq<Short>, t: seq<Short>, m: nat, step: nat, i: nat) {
    && |t| == |s| + i && step >= 2 && |s| > 0
    && (forall k, r: nat {:trigger SampleAt(s, t, step, k, r)} ::
         0 <= k <= i && (r < step - 1 || k == i) && k * (step - 1) + r < |s| ==> SampleAt(s, t, step, k, r))
    && (forall k {:trigger MeanAt(s, t, m, step, k)} :: 1 <= k <= i ==> MeanAt(s, t, m, step, k))
  }

  /** The r-th sample behind the k-th inserted value. */
  predicate SampleAt(s: seq<Short>, t: seq<Short>, step: nat, k: nat, r: nat) {
    step > 0 && k * (step - 1) + r < |s| && k * step + r < |t| && t[k * step + r] == s[k * (step - 1) + r]
  }

  /** The k-th inserted value is the mean of the two samples around it. */
  predicate MeanAt(s: seq<Short>, t: seq<Short>, m: nat, step: nat, k: nat) {
    && step > 0 && 1 <= k * step <= |t| && 1 <= k * (step - 1) <= |s| && |s| > 0
    && (k * (step - 1) == |s| ==> k * step == m)
    && t[k * step - 1] == Mean(s[k * (step - 1) - 1], if k * step == m then s[0] else s[k * (step - 1)])
  }

  lemma {:induction false} InsertedShape(s: seq<Short>, m: nat, i: nat)
    requires Stretchable(|s|, m) && i <= m - |s|
    ensures Shape(s, Inserted(s, m, i), m, InsertStep(|s|, m), i)
    decreases i
  {
    hide Shape, InsertMean, SampleAt, MeanAt;
    StepIsTwo(|s|, m);
    if i == 0 {
      SamplesOnly(s, m, InsertStep(|s|, m));
    } else {
      InsertedShape(s, m, i - 1);
      InsertionFits(|s|, m, i - 1);
      ShapeMore(s, Inserted(s, m, i - 1), m, InsertStep(|s|, m), i - 1);
    }
  }

  lemma SamplesOnly(s: seq<Short>, m: nat, step: nat)
    requires s != [] && step >= 2
    ensures Shape(s, s, m, step, 0)
  {
  }

  /** One insertion keeps the shape. */
  lemma ShapeMore(s: seq<Short>, t: seq<Short>, m: nat, step: nat, i: nat)
    requires Shape(s, t, m, step, i)
    requires var p := (i + 1) * step - 1; 1 <= p <= |t| && p < m && (p == |t| <==> p == m - 1)
    ensures Shape(s, InsertMean(t, m, (i + 1) * step - 1), m, step, i + 1)
  {
    var p := (i + 1) * step - 1;
    var u := InsertMean(t, m, p);
    Distribute(i, step);
    Distribute(i + 1, step);
    assert (i + 1) * step == i * step + step;
    forall k, r: nat {:trigger SampleAt(s, u, step, k, r)}
      | 0 <= k <= i + 1 && (r < step - 1 || k == i + 1) && k * (step - 1) + r < |s|
      ensures SampleAt(s, u, step, k, r)
    {
      if k <= i {
        MulUp(k, i, step);
        SampleBefore(s, t, u, m, step, i, k, r);
      } else {
        assert SampleAt(s, t, step, i, step - 1 + r);
        assert u[k * step + r] == t[k * step + r - 1];
      }
    }
    forall k {:trigger MeanAt(s, u, m, step, k)} | 1 <= k <= i + 1 ensures MeanAt(s, u, m, step, k) {
      if k <= i {
        MulUp(k, i, step);
        assert MeanAt(s, t, m, step, k);
        assert u[k * step - 1] == t[k * step - 1];
      } else {
        NewMean(s, t, m, step, i);
      }
    }
  }

  lemma SampleBefore(s: seq<Short>, t: seq<Short>, u: seq<Short>, m: nat, step: nat, i: nat, k: nat, r: nat)
    requires Shape(s, t, m, step, i) && k <= i && r < step - 1 && k * (step - 1) + r < |s|
    requires k * step <= i * step && i * step + step - 1 <= |t| && |u| == |t| + 1
    requires u[..i * step + step - 1] == t[..i * step + step - 1]
    ensures SampleAt(s, u, step, k, r)
  {
    assert SampleAt(s, t, step, k, r);
    assert u[k * step + r] == u[..i * step + step - 1][k * step + r];
  }

  lemma NewMean(s: seq<Short>, t: seq<Short>, m: nat, step: nat, i: nat)
    requires Shape(s, t, m, step, i)
    requires var p := (i + 1) * step - 1; 1 <= p <= |t| && p < m && (p == |t| <==> p == m - 1)
    ensures MeanAt(s, InsertMean(t, m, (i + 1) * step - 1), m, step, i + 1)
  {
    var p := (i + 1) * step - 1;
    Distribute(i, step);
    Distribute(i + 1, step);
    assert (i + 1) * step == i * step + step;
    assert (i + 1) * (step - 1) == i * (step - 1) + step - 1;
    assert SampleAt(s, t, step, i, step - 2);
    if p == m - 1 {
      FirstSample(s, t, m, step, i);
    } else {
      assert SampleAt(s, t, step, i, step - 1);
    }
  }

  lemma FirstSample(s: seq<Short>, t: seq<Short>, m: nat, step: nat, i: nat)
    requires Shape(s, t, m, step, i)
    ensures t[0] == s[0]
  {
    assert SampleAt(s, t, step, 0, 0);
  }

  /** The stretched cycle: m values, each inserted one the mean of the two samples around it, one in
      every m / (m - n) values, the samples in order and none lost. */
  lemma StretchedShape(s: seq<Short>, m: nat)
    requires Stretchable(|s|, m)
    ensures var t := Inserted(s, m, m - |s|);
      |t| == m && Shape(s, t, m, m / (m - |s|), m - |s|)
  {
    InsertedShape(s, m, m - |s|);
  }

  /** How many of the d means are inserted before sample a. */
  function Before(a: nat, step: nat, d: nat): nat
    requires step > 1
  {
    if a / (step - 1) < d then a / (step - 1) else d
  }

  /** Every sample is kept, and in order. */
  lemma SampleKept(s: seq<Short>, m: nat, a: nat, b: nat)
    requires Stretchable(|s|, m) && a < b < |s| && InsertStep(|s|, m) > 1
    ensures var (step, d) := (InsertStep(|s|, m), m - |s|);
      var (p, q) := (a + Before(a, step, d), b + Before(b, step, d));
      p < q < m && Inserted(s, m, d)[p] == s[a] && Inserted(s, m, d)[q] == s[b]
  {
    hide Inserted, InsertStep;
    SampleFound(s, m, a);
    SampleFound(s, m, b);
    DivisionGrows(a, b, InsertStep(|s|, m) - 1);
  }

  lemma DivisionGrows(a: nat, b: nat, d: nat)
    requires a <= b && d > 0
    ensures a / d <= b / d
  {
    DivisionBounds(a, d);
    DivisionBounds(b, d);
    if b / d < a / d { MulUp(b / d + 1, a / d, d); }
  }

  lemma SampleFound(s: seq<Short>, m: nat, a: nat)
    requires Stretchable(|s|, m) && a < |s| && InsertStep(|s|, m) > 1
    ensures var (step, d) := (InsertStep(|s|, m), m - |s|);
      a + Before(a, step, d) < m && Inserted(s, m, d)[a + Before(a, step, d)] == s[a]
  {
    hide Inserted, Before, InsertStep, Shape;
    InsertedShape(s, m, m - |s|);
    var (step, d) := (InsertStep(|s|, m), m - |s|);
    BeforeBounds(a, step, d);
    ShapeSample(s, Inserted(s, m, d), m, step, d, Before(a, step, d), a);
  }

  lemma ShapeSample(s: seq<Short>, t: seq<Short>, m: nat, step: nat, i: nat, k: nat, a: nat)
    requires Shape(s, t, m, step, i) && k <= i && a < |s| && step > 1
    requires k * (step - 1) <= a && (k < i ==> a < k * (step - 1) + step - 1)
    ensures a + k < |t| && t[a + k] == s[a]
  {
    Distribute(k, step);
    assert SampleAt(s, t, step, k, a - k * (step - 1));
  }

  lemma BeforeBounds(a: nat, step: nat, d: nat)
    requires step > 1
    ensures var k := Before(a, step, d);
      k <= d && k * (step - 1) <= a && (k < d ==> a < k * (step - 1) + step - 1)
  {
    var q := a / (step - 1);
    DivisionBounds(a, step - 1);
    MulUp(Before(a, step, d), q, step - 1);
    assert (step - 1) * (q + 1) == q * (step - 1) + step - 1;
  }

  // ----- the loop, in place -----

  /** A channel that starts with t and is unfilled after it. */
  predicate Filled(x: seq<Short>, t: seq<Short>) {
    |t| <= |x| == CHANNEL && x[..|t|] == t && forall j :: |t| <= j < CHANNEL ==> x[j] == UNFILLED
  }

  /** A channel in which position p of t has been opened. */
  predicate Opened(x: seq<Short>, t: seq<Short>, p: nat) {
    && p < |t| < |x| == CHANNEL
    && x[..p] == t[..p] && x[p + 1..|t| + 1] == t[p..]
    && forall j :: |t| < j < CHANNEL ==> x[j] == UNFILLED
  }

  /** One of the two channels of a buffer. */
  ghost function Channel(a: array<Short>, c: nat): (x: seq<Short>)
    requires c + CHANNEL <= a.Length
    reads a
    ensures |x| == CHANNEL && forall j :: 0 <= j < CHANNEL ==> x[j] == a[c + j]
  {
    a[c..c + CHANNEL]
  }

  /** `buff_backward` on the part of a buffer that starts at off. */
  method BuffBackward(buff: array<Short>, off: nat, len: nat) returns (ok: bool)
    requires len > 1 ==> off + len < buff.Length
    modifies buff
    ensures ok == (len > 1)
    ensures forall j :: 0 <= j < buff.Length ==>
      buff[j] == if ok && off < j <= off + len then old(buff[j - 1]) else old(buff[j])
  {
    if len <= 1 { return false; }
    var i := len;
    while i > 0
      invariant 0 <= i <= len
      invariant forall j :: 0 <= j < buff.Length && (j <= off + i || j > off + len) ==> buff[j] == old(buff[j])
      invariant forall j :: off + i < j <= off + len ==> buff[j] == old(buff[j - 1])
    {
      buff[off + i] := buff[off + i - 1];
      i := i - 1;
    }
    return true;
  }

  /** A channel between the shift and the mean. */
  predicate Ready(x: seq<Short>, t: seq<Short>, p: nat, m: nat) {
    if p == m - 1 then Filled(x, t) else Opened(x, t, p)
  }

  lemma OpenedByShift(x: seq<Short>, y: seq<Short>, t: seq<Short>, p: nat, m: nat)
    requires Filled(x, t) && 1 <= p < |t| < m < CHANNEL && |y| == CHANNEL
    requires forall j {:trigger y[j]} :: 0 <= j < CHANNEL ==> y[j] == if p < j <= m then x[j - 1] else x[j]
    ensures Opened(y, t, p)
  {
    forall j {:trigger t[j]} | 0 <= j < |t| ensures x[j] == t[j] {
      assert x[..|t|][j] == t[j];
    }
    forall j | 0 <= j < p ensures y[..p][j] == t[..p][j] {
      assert y[j] == x[j];
    }
    forall j | 0 <= j < |t| - p ensures y[p + 1..|t| + 1][j] == t[p..][j] {
      assert y[p + 1 + j] == x[p + j] == t[p + j];
    }
  }

  lemma FilledByMean(x: seq<Short>, t: seq<Short>, p: nat, m: nat)
    requires 1 <= p <= |t| < m < CHANNEL && (p == |t| <==> p == m - 1) && Ready(x, t, p, m)
    ensures x[p - 1] == t[p - 1] && x[0] == t[0] && (p < m - 1 ==> x[p + 1] == t[p])
    ensures Filled(x[p := Mean(t[p - 1], if p == m - 1 then t[0] else t[p])], InsertMean(t, m, p))
  {
    assert x[..p][p - 1] == t[p - 1] && x[..p][0] == t[0];
    if p < m - 1 {
      assert x[p + 1..|t| + 1][0] == t[p];
    }
    var v := Mean(t[p - 1], if p == m - 1 then t[0] else t[p]);
    var y := x[p := v];
    assert y[..p] == t[..p] && y[p] == v && y[p + 1..|t| + 1] == t[p..];
    assert y[..|t| + 1] == y[..p] + [v] + y[p + 1..|t| + 1];
  }

  /** Shifts the rest of the cycle back by one place in the channel that starts at c. */
  method OpenSlot(synData: array<Short>, c: nat, p: nat, m: nat, ghost t: seq<Short>)
    requires c + CHANNEL <= synData.Length && Filled(Channel(synData, c), t)
    requires 1 <= p <= |t| < m < CHANNEL && (p == |t| <==> p == m - 1)
    modifies synData
    ensures Ready(Channel(synData, c), t, p, m)
    ensures forall d: nat :: d + CHANNEL <= synData.Length && (d + CHANNEL <= c || c + CHANNEL <= d) ==>
      Channel(synData, d) == old(Channel(synData, d))
  {
    ghost var x := Channel(synData, c);
    var ok := BuffBackward(synData, c + p % CHANNEL, m - p);
    if p < m - 1 {
      OpenedByShift(x, Channel(synData, c), t, p, m);
    }
  }

  /** The mean of the neighbours of an opened position, or of the last and the first sample. */
  method SetMean(synData: array<Short>, c: nat, p: nat, m: nat, ghost t: seq<Short>)
    requires c + CHANNEL <= synData.Length && 1 <= p <= |t| < m < CHANNEL && (p == |t| <==> p == m - 1)
    requires Ready(Channel(synData, c), t, p, m)
    modifies synData
    ensures Filled(Channel(synData, c), InsertMean(t, m, p))
    ensures forall d: nat :: d + CHANNEL <= synData.Length && (d + CHANNEL <= c || c + CHANNEL <= d) ==>
      Channel(synData, d) == old(Channel(synData, d))
  {
    hide Ready, Filled;
    ghost var x := Channel(synData, c);
    FilledByMean(x, t, p, m);
    if p == m - 1 {
      synData[c + p % CHANNEL] := Mean(synData[c + p % CHANNEL - 1], synData[c]);
    } else {
      synData[c + p % CHANNEL] := Mean(synData[c + p % CHANNEL - 1], synData[c + p % CHANNEL + 1]);
    }
    assert Channel(synData, c) == x[p := Mean(t[p - 1], if p == m - 1 then t[0] else t[p])];
  }

  /** The insertions for both channels: each becomes its samples stretched to m values. */
  method StretchCycle(synData: array<Short>, n: nat, m: nat, ghost s0: seq<Short>, ghost s1: seq<Short>)
    requires synData.Length == 2 * CHANNEL && Stretchable(n, m) && |s0| == |s1| == n
    requires Filled(Channel(synData, 0), s0) && Filled(Channel(synData, CHANNEL), s1)
    modifies synData
    ensures Filled(Channel(synData, 0), Inserted(s0, m, m - n))
    ensures Filled(Channel(synData, CHANNEL), Inserted(s1, m, m - n))
  {
    hide Filled, Ready, InsertMean, Channel;
    var insertStep := m / (m - n);
    StepIsTwo(n, m);
    var movePos := insertStep - 1;
    var i := 0;
    while i < m - n
      invariant 0 <= i <= m - n && movePos == (i + 1) * insertStep - 1
      invariant Filled(Channel(synData, 0), Inserted(s0, m, i))
      invariant Filled(Channel(synData, CHANNEL), Inserted(s1, m, i))
    {
      InsertionFits(n, m, i);
      ghost var t0, t1 := Inserted(s0, m, i), Inserted(s1, m, i);
      OpenSlot(synData, 0, movePos, m, t0);
      OpenSlot(synData, CHANNEL, movePos, m, t1);
      SetMean(synData, 0, movePos, m, t0);
      SetMean(synData, CHANNEL, movePos, m, t1);
      NextPosition(i, insertStep);
      movePos := movePos + insertStep;
      i := i + 1;
    }
  }

  lemma NextPosition(i: nat, step: nat)
    ensures (i + 2) * step == (i + 1) * step + step
  {
  }
}
