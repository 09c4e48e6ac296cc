/** SrcLagrange<T>: sample-rate conversion by Lagrange interpolation of odd
    order N over the last N + 1 input samples. The samples live in a ring
    buffer (m_pF with write position m_wrPos); every output evaluates the
    Lagrange polynomial through them at D = (N - 1) / 2 + frac(T), so the
    output lags the input by (N + 1) / 2 samples. The virtual clock is the
    shared PhaseClock. Sample values are stored and interpolated exactly. */
module LagrangeSrc {
  import opened Numeric
  import PhaseClock

  /** The sample history: the buffer and the index of the next write, which
      is also the oldest sample. */
  datatype RingBuf = RingBuf(buf: seq<int>, wrPos: int)

  /** A history that can serve an order of at least one: two slots or
      more, and a write position inside the buffer. */
  type Ring = r: RingBuf | 2 <= |r.buf| && 0 <= r.wrPos < |r.buf|
    witness RingBuf([0, 0], 0)

  /** The interpolation order of a history, `m_interpolation`. */
  function Order(r: Ring): nat
  {
    |r.buf| - 1
  }

  /** `m_Hinterpolation`, the index of the middle node. */
  function Half(r: Ring): nat
  {
    (|r.buf| - 2) / 2
  }

  /** The slot holding the k-th oldest sample. */
  function RingIndex(r: Ring, k: nat): (i: nat)
    requires k < |r.buf|
    ensures i < |r.buf|
  {
    if r.wrPos + k < |r.buf| then r.wrPos + k else r.wrPos + k - |r.buf|
  }

  /** The samples held, oldest first. */
  function Window(r: Ring): (w: seq<int>)
    ensures |w| == |r.buf|
  {
    r.buf[r.wrPos..] + r.buf[..r.wrPos]
  }

  lemma WindowAt(r: Ring, k: nat)
    requires k < |r.buf|
    ensures Window(r)[k] == r.buf[RingIndex(r, k)]
  {
  }

  /** Storing one sample (lines 161-162): write at m_wrPos, step it, and
      wrap it to 0 once it passes the order. */
  function Push(r: Ring, x: int): (r': Ring)
    ensures |r'.buf| == |r.buf|
  {
    var w := if r.wrPos + 1 > Order(r) then 0 else r.wrPos + 1;
    RingBuf(r.buf[r.wrPos := x], w)
  }

  /** A push drops the oldest sample and appends the new one. */
  lemma PushShiftsWindow(r: Ring, x: int)
    ensures Window(Push(r, x)) == Window(r)[1..] + [x]
  {
    var b := r.buf[r.wrPos := x];
    if r.wrPos + 1 < |r.buf| {
      assert b[r.wrPos + 1..] == r.buf[r.wrPos + 1..];
      assert b[..r.wrPos + 1] == r.buf[..r.wrPos] + [x];
      assert Window(r)[1..] == r.buf[r.wrPos + 1..] + r.buf[..r.wrPos];
    } else {
      assert b[0..] == r.buf[..r.wrPos] + [x];
      assert Window(r) == [r.buf[r.wrPos]] + r.buf[..r.wrPos];
    }
  }

  function PushAll(r: Ring, xs: seq<int>): (r': Ring)
    ensures |r'.buf| == |r.buf|
    decreases |xs|
  {
    if xs == [] then r else PushAll(Push(r, xs[0]), xs[1..])
  }

  /** The history always holds the most recent Order + 1 samples, oldest
      first: pushing xs leaves the last |buf| entries of the old window
      followed by xs. */
  lemma {:induction false} PushAllKeepsLatest(r: Ring, xs: seq<int>)
    ensures Window(PushAll(r, xs)) == (Window(r) + xs)[|xs|..]
    decreases |xs|
  {
    if xs != [] {
      PushShiftsWindow(r, xs[0]);
      PushAllKeepsLatest(Push(r, xs[0]), xs[1..]);
      assert Window(r)[1..] + [xs[0]] + xs[1..] == (Window(r) + xs)[1..];
    }
  }

  /** One factor of the basis product: (D - k) / (n - k). */
  function Factor(D: real, n: int, k: int): real
    requires n != k
  {
    (D - k as real) / (n - k) as real
  }

  /** The n-th Lagrange basis polynomial at D, as the product the source
      accumulates over the nodes k < m (lines 177-184): one factor per node
      other than n, in node order. */
  function BasisUpTo(D: real, n: int, m: nat): real
  {
    if m == 0 then 1.0
    else if m - 1 == n then BasisUpTo(D, n, m - 1)
    else BasisUpTo(D, n, m - 1) * Factor(D, n, m - 1)
  }

  lemma BasisStep(D: real, n: int, k: nat)
    ensures BasisUpTo(D, n, k + 1)
      == if k == n then BasisUpTo(D, n, k) else BasisUpTo(D, n, k) * Factor(D, n, k)
  {
  }

  /** The source multiplies by D - k before dividing by n - k. */
  lemma MulDivAssoc(x: real, a: real, b: real, f: real)
    requires b != 0.0 && f == a / b
    ensures x * a / b == x * f
  {
  }

  /** One pass of the inner coefficient loop (line 181). */
  lemma CoefficientStep(c: real, D: real, n: int, k: nat)
    requires n != k && c == BasisUpTo(D, n, k)
    ensures c * (D - k as real) / (n - k) as real == BasisUpTo(D, n, k + 1)
  {
    var a := D - k as real;
    var b := (n - k) as real;
    var f := Factor(D, n, k);
    assert f == a / b;
    BasisStep(D, n, k);
    assert BasisUpTo(D, n, k + 1) == c * f;
    MulDivAssoc(c, a, b, f);
  }

  lemma FactorAtOwnNode(n: int, k: int)
    requires n != k
    ensures Factor(n as real, n, k) == 1.0
  {
    var c := (n - k) as real;
    assert n as real - k as real == c;
  }

  /** At its own node the basis polynomial is one. */
  lemma {:induction false} BasisAtOwnNode(n: int, m: nat)
    ensures BasisUpTo(n as real, n, m) == 1.0
  {
    if m > 0 {
      BasisAtOwnNode(n, m - 1);
      if m - 1 != n {
        FactorAtOwnNode(n, m - 1);
      }
    }
  }

  /** At any other node below m it vanishes. */
  lemma {:induction false} BasisAtOtherNode(j: nat, n: int, m: nat)
    requires j < m && j != n
    ensures BasisUpTo(j as real, n, m) == 0.0
  {
    if m - 1 != j {
      BasisAtOtherNode(j, n, m - 1);
    } else {
      assert j as real - (m - 1) as real == 0.0;
      assert Factor(j as real, n, m - 1) == 0.0;
    }
  }

  /** The coefficients m_pLI for m nodes: basis polynomial n at D. */
  function Coeffs(D: real, m: nat): (c: seq<real>)
    ensures |c| == m
  {
    seq(m, n => BasisUpTo(D, n, m))
  }

  /** The weighted sum over the first m nodes, coefficient times sample,
      accumulated in the order of lines 188-192. */
  function Combine(w: seq<int>, c: seq<real>, m: nat): real
    requires m <= |w| && m <= |c|
  {
    if m == 0 then 0.0
    else Combine(w, c, m - 1) + c[m - 1] * w[m - 1] as real
  }

  /** The value of the polynomial through the samples w (at nodes
      0..|w|-1) at D. */
  function Interpolate(w: seq<int>, D: real): real
  {
    Combine(w, Coeffs(D, |w|), |w|)
  }

  lemma {:induction false} SumAtNode(w: seq<int>, j: nat, m: nat)
    requires j < |w| && m <= |w|
    ensures Combine(w, Coeffs(j as real, |w|), m) == if j < m then w[j] as real else 0.0
  {
    if m > 0 {
      SumAtNode(w, j, m - 1);
      if m - 1 == j {
        BasisAtOwnNode(j, |w|);
      } else {
        BasisAtOtherNode(j, m - 1, |w|);
      }
    }
  }

  /** The polynomial passes through every sample: at node j it returns w[j]. */
  lemma InterpolatesSamples(w: seq<int>, j: nat)
    requires j < |w|
    ensures Interpolate(w, j as real) == w[j] as real
  {
    SumAtNode(w, j, |w|);
  }

  /** One output sample at fractional time u: the polynomial through the
      window at the middle node plus u, saturated to T (lines 175-199). */
  function Output(t: ElemRange, r: Ring, u: PhaseClock.Unit): (y: int)
    ensures InRange(t, y)
  {
    Saturate(t, Interpolate(Window(r), Half(r) as real + u))
  }

  /** At whole-sample times the converter reproduces the middle sample of
      its window, clamped to T: the output is the input delayed. */
  lemma OutputAtWholeTime(t: ElemRange, r: Ring)
    ensures Output(t, r, 0.0) == Clamp(t, Window(r)[Half(r)])
  {
    InterpolatesSamples(Window(r), Half(r));
    assert Half(r) as real + 0.0 == Half(r) as real;
  }

  /** The inner coefficient loop (lines 178-183) for node n. */
  method BasisCoefficient(D: real, n: int, order: nat) returns (c: real)
    ensures c == BasisUpTo(D, n, order + 1)
  {
    c := 1.0;
    var k: int := 0;
    while k <= order
      invariant 0 <= k <= order + 1
      invariant c == BasisUpTo(D, n, k)
    {
      if n != k {
        CoefficientStep(c, D, n, k);
        c := c * (D - k as real) / (n - k) as real;
      } else {
        BasisStep(D, n, k);
      }
      k := k + 1;
    }
  }

  /** The outer coefficient loop (lines 177-184), filling m_pLI. */
  method Coefficients(D: real, order: nat) returns (li: seq<real>)
    ensures li == Coeffs(D, order + 1)
  {
    li := [];
    var n: int := 0;
    while n <= order
      invariant 0 <= n <= order + 1 && |li| == n
      invariant forall j | 0 <= j < n :: li[j] == BasisUpTo(D, j, order + 1)
    {
      var c := BasisCoefficient(D, n, order);
      li := li + [c];
      n := n + 1;
    }
  }

  /** The ring walk of lines 186-192: coefficient k times the k-th oldest
      sample, summed from the oldest. */
  method WeightedSum(r: Ring, li: seq<real>) returns (fout: real)
    requires |li| == |r.buf|
    ensures fout == Combine(Window(r), li, |li|)
  {
    var order := Order(r);
    fout := 0.0;
    var k: int := 0;
    var index := r.wrPos;
    while true
      invariant 0 <= k <= order && index == RingIndex(r, k)
      invariant fout == Combine(Window(r), li, k)
      decreases order - k
    {
      WindowAt(r, k);
      fout := fout + li[k] * r.buf[index] as real;
      k := k + 1;
      if k > order {
        break;
      }
      index := index + 1;
      if index > order {
        index := 0;
      }
    }
  }

  /** The emission step (lines 175-199), with the loops of the source on
      unbounded counters. */
  method EmitSample(t: ElemRange, r: Ring, u: PhaseClock.Unit) returns (y: int)
    ensures y == Output(t, r, u)
  {
    var D := Half(r) as real + u;
    var li := Coefficients(D, Order(r));
    var fout := WeightedSum(r, li);
    y := Saturate(t, fout);
  }

  /** The converter: order, middle node, history and clock. */
  datatype Lagrange = Lagrange(order: Byte, half: int, ring: RingBuf, phase: PhaseClock.Phase)

  /** The states a successful `init` produces and `process` keeps: an odd
      order, its middle node, a history of order + 1 slots and a consistent
      clock. */
  predicate Valid(st: Lagrange)
  {
    && |st.ring.buf| == st.order + 1
    && st.half >= 0 && st.order == 2 * st.half + 1
    && 0 <= st.ring.wrPos <= st.order
    && PhaseClock.Valid(st.phase)
  }

  /** `std::vector::resize`: keep the common prefix, fill new slots with zero. */
  function Resize(s: seq<int>, n: nat): (r: seq<int>)
    ensures |r| == n
    ensures forall i | 0 <= i < n :: r[i] == if i < |s| then s[i] else 0
  {
    if n <= |s| then s[..n] else s + seq(n - |s|, _ => 0)
  }

  /** `init` (lines 127-138) with the history sized order + 1, the size its
      indices need, and a zero output rate rejected before any state
      changes (see AcceptsAsWritten). An even order is rejected likewise;
      otherwise the step is inRate / outRate and success means it is
      positive. */
  function Init(prev: Lagrange, inRate: int, outRate: int, order: Byte): (r: (bool, Lagrange))
    ensures order % 2 == 0 || outRate == 0 ==> r == (false, prev)
    ensures order % 2 == 1 && outRate != 0 ==>
      && r.1.order == order
      && r.1.half == (order - 1) / 2
      && r.1.ring == RingBuf(Resize(prev.ring.buf, order + 1), order)
      && r.1.phase == PhaseClock.Phase(inRate as real / outRate as real, 0.0, 0)
    ensures r.0 <==> order % 2 == 1 && outRate != 0 && inRate as real / outRate as real > 0.0
    ensures r.0 ==> Valid(r.1)
  {
    if order % 2 == 0 || outRate == 0 then (false, prev)
    else
      var dT := inRate as real / outRate as real;
      var st := Lagrange(order, (order - 1) / 2, RingBuf(Resize(prev.ring.buf, order + 1), order),
                         PhaseClock.Phase(dT, 0.0, 0));
      (dT > 0.0, st)
  }

  /** The output computation `process` performs, as a function of the history. */
  function Emitter(t: ElemRange): (Ring, PhaseClock.Unit) -> int
  {
    (r: Ring, u: PhaseClock.Unit) => Output(t, r, u)
  }

  /** `process` (lines 155-206) over one chunk of input, which must not be
      empty (in[0] is read unconditionally). Consumption tests
      `m_inT <= (int)m_T` as the source does; the clock's reference run
      tests `m_inT <= m_T`, which agrees on the non-negative times Valid
      keeps. */
  method Process(t: ElemRange, st: Lagrange, input: seq<int>) returns (next: Lagrange, out: seq<int>)
    requires Valid(st) && |input| > 0
    ensures var r := PhaseClock.Run<Ring>(st.phase, st.ring, input, 0, Push, Emitter(t));
      next == st.(ring := r.hist, phase := r.phase) && out == r.out
    ensures Valid(next)
    ensures forall y <- out :: InRange(t, y)
  {
    RunKeepsValid(t, st, input);
    var e := Emitter(t);
    var ring: Ring := st.ring;
    var whole := PhaseClock.Run<Ring>(st.phase, ring, input, 0, Push, e);
    var cur := st.phase;
    var s := 0;
    out := [];
    while true
      invariant s < |input| && cur.dT > 0.0 && cur.T >= 0.0
      invariant var r := PhaseClock.Run<Ring>(cur, ring, input, s, Push, e);
        whole == PhaseClock.Outcome(r.phase, r.hist, out + r.out)
      invariant forall y <- out :: InRange(t, y)
      decreases |input| - s, PhaseClock.Budget(cur)
    {
      PhaseClock.NeedsInputTruncated(cur);
      if cur.inT <= Trunc(cur.T) {
        PhaseClock.RunConsumes<Ring>(cur, ring, input, s, Push, e);
        cur := PhaseClock.Consume(cur);
        ring := Push(ring, input[s]);
        s := s + 1;
        if s >= |input| {
          next := st.(ring := ring, phase := PhaseClock.Carry(cur));
          return;
        }
      } else {
        var y := EmitSample(t, ring, PhaseClock.Frac(cur));
        assert y == e(ring, PhaseClock.Frac(cur));
        PhaseClock.RunEmits<Ring>(cur, ring, input, s, Push, e);
        PhaseClock.EmitShrinksBudget(cur);
        assert out + [y] + PhaseClock.Run<Ring>(PhaseClock.Advance(cur), ring, input, s, Push, e).out
          == out + ([y] + PhaseClock.Run<Ring>(PhaseClock.Advance(cur), ring, input, s, Push, e).out);
        out := out + [y];
        cur := PhaseClock.Advance(cur);
      }
    }
  }

  /** A call keeps the history size. */
  lemma {:induction false} RunKeepsRingSize(p: PhaseClock.Phase, r: Ring, input: seq<int>, s: nat,
                                            e: (Ring, PhaseClock.Unit) -> int)
    requires s < |input| && p.dT > 0.0 && p.T >= 0.0
    ensures |PhaseClock.Run<Ring>(p, r, input, s, Push, e).hist.buf| == |r.buf|
    decreases |input| - s, PhaseClock.Budget(p)
  {
    if PhaseClock.NeedsInput(p) {
      if s + 1 < |input| {
        RunKeepsRingSize(PhaseClock.Consume(p), Push(r, input[s]), input, s + 1, e);
      }
    } else {
      PhaseClock.EmitShrinksBudget(p);
      RunKeepsRingSize(PhaseClock.Advance(p), r, input, s, e);
    }
  }

  /** `process` keeps a consistent converter consistent. */
  lemma RunKeepsValid(t: ElemRange, st: Lagrange, input: seq<int>)
    requires Valid(st) && |input| > 0
    ensures var r := PhaseClock.Run<Ring>(st.phase, st.ring, input, 0, Push, Emitter(t));
      Valid(st.(ring := r.hist, phase := r.phase))
  {
    var ring: Ring := st.ring;
    var r := PhaseClock.Run<Ring>(st.phase, ring, input, 0, Push, Emitter(t));
    RunKeepsRingSize(st.phase, ring, input, 0, Emitter(t));
    PhaseClock.RunKeepsValid<Ring>(st.phase, ring, input, 0, Push, Emitter(t));
    var h: Ring := r.hist;
    assert 0 <= h.wrPos < |h.buf| == st.order + 1;
  }

  // ---- The source as written ----

  /** The history size `init` allocates (lines 131-132): order slots. */
  function BufferSizeAsWritten(order: Byte): nat
  {
    order
  }

  /** The write position after n pushes from `init` as written: it starts
      at `order` (line 133) and wraps to 0 only after passing the order
      (line 162). */
  function WritePosAsWritten(order: Byte, n: nat): (r: int)
    ensures r == (order + n) % (order + 1)
  {
    if n == 0 then
      ModUnique(order, order + 1, 0, order);
      order
    else
      var prev := WritePosAsWritten(order, n - 1);
      var w := prev + 1;
      var t := order + n - 1;
      DivMod(t, order + 1);
      if w > order then
        ModUnique(t + 1, order + 1, t / (order + 1) + 1, 0);
        0
      else
        ModUnique(t + 1, order + 1, t / (order + 1), w);
        w
  }

  /** The write positions run over 0..order, order + 1 slots, but `init` as
      written allocates only `order` of them: the first write already falls
      one past the end. */
  lemma FirstWriteOutOfRangeAsWritten(order: Byte, n: nat)
    ensures 0 <= WritePosAsWritten(order, n) <= order
    ensures WritePosAsWritten(order, 0) >= BufferSizeAsWritten(order)
  {
  }

  /** The value of an `unsigned char` loop counter after `steps` increments
      from zero: it wraps at 256. */
  function CounterAsWritten(steps: nat): Byte
  {
    steps % 256
  }

  /** The loops of lines 177, 179 and 188-190 run while the 8-bit counter is
      at most the order. The guard fails at some step exactly when the order
      is below 255; at order 255, which `init` accepts, it never fails and
      `process` never returns. */
  lemma CounterNeverExitsAsWritten(order: Byte)
    ensures (forall steps: nat :: CounterAsWritten(steps) <= order) <==> order == 255
  {
    if order < 255 {
      assert CounterAsWritten(order + 1) == order + 1;
    }
  }

  /** `init` as written accepts a zero output rate whenever inRate is
      positive: the double quotient is +infinity, which compares above zero,
      though no finite step exists and `(int)m_T` is then undefined. */
  function AcceptsAsWritten(inRate: int, outRate: int, order: Byte): (r: bool)
    ensures r <==> order % 2 == 1 && ((inRate > 0 && outRate >= 0) || (inRate < 0 && outRate < 0))
  {
    order % 2 == 1 &&
      if outRate == 0 then inRate > 0
      else RatioPositive(inRate, outRate); inRate as real / outRate as real > 0.0
  }

  lemma ZeroRateAcceptedAsWritten(prev: Lagrange, inRate: int, order: Byte)
    requires order % 2 == 1 && inRate > 0
    ensures AcceptsAsWritten(inRate, 0, order)
    ensures !Init(prev, inRate, 0, order).0
  {
  }

  /** Away from a zero output rate the two agree. */
  lemma InitAgreesAsWritten(prev: Lagrange, inRate: int, outRate: int, order: Byte)
    requires outRate != 0
    ensures Init(prev, inRate, outRate, order).0 <==> AcceptsAsWritten(inRate, outRate, order)
  {
  }
}
