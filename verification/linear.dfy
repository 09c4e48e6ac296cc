/** SrcLinear<T>: sample-rate conversion by linear interpolation in 64-bit
    fixed point. The output clock is the pair (T, Tf): T counts whole input
    samples and Tf is a fraction scaled by 2^accuracy. Every emitted sample
    moves the clock by the quotient (inRate << accuracy) / outRate, held as
    an integer step dT and a fractional step dTf. inT counts the input samples
    consumed. The output lags the input by one sample. */
module LinearSrc {
  import opened Numeric

  datatype Linear = Linear(
    accuracy: nat,
    dT: int,
    dTf: int,
    Tf: int,
    T: int,
    inT: int,
    previous: int)

  /** The fraction mask 2^accuracy - 1, as the 64-bit `(1LL << accuracy) - 1`. */
  function Mask(accuracy: nat): int
  {
    Pow2(accuracy) - 1
  }

  /** The fixed-point step per output sample. */
  function Quotient(st: Linear): int
  {
    st.dT * Pow2(st.accuracy) + st.dTf
  }

  /** The output clock in fixed-point units. */
  function Time(st: Linear): int
  {
    st.T * Pow2(st.accuracy) + st.Tf
  }

  /** How far, in fixed-point units, the consumed input runs ahead of the output clock. */
  function Lag(st: Linear): int
  {
    st.inT * Pow2(st.accuracy) - Time(st)
  }

  /** What `process` needs to terminate: a positive step and a fraction below one. */
  predicate Stepping(st: Linear)
  {
    Quotient(st) > 0 && 0 <= st.Tf < Pow2(st.accuracy)
  }

  /** The states reachable from a successful `init`. */
  predicate Valid(st: Linear)
  {
    && Stepping(st)
    && 0 <= st.dTf < Pow2(st.accuracy)
    && 0 <= st.T
    && 0 <= st.inT <= st.T + 1
    && Lag(st) > -Quotient(st)
  }

  /** `init` (include/sample_rate_converter.hpp:34-45). The step is the C++
      quotient of (inRate << accuracy) by outRate, split by an arithmetic
      shift and a mask. A zero outRate is rejected before any state changes;
      the source divides by it (see InitAsWritten). */
  function Init(prev: Linear, inRate: int, outRate: int, accuracy: nat): (r: (bool, Linear))
    ensures outRate == 0 ==> r == (false, prev)
    ensures outRate != 0 ==>
      var q := TruncDiv(inRate * Pow2(accuracy), outRate);
      && r.1.dT * Pow2(accuracy) + r.1.dTf == q
      && 0 <= r.1.dTf <= Mask(accuracy)
      && r.1 == Linear(accuracy, r.1.dT, r.1.dTf, 0, 0, 0, 0)
      && (r.0 <==> q > 0)
    ensures r.0 <==> outRate != 0 && (inRate * Pow2(accuracy)) as real / outRate as real >= 1.0
    ensures r.0 ==> Valid(r.1)
  {
    if outRate == 0 then (false, prev)
    else
      var scaled := inRate * Pow2(accuracy);
      var q := TruncDiv(scaled, outRate);
      var p := Pow2(accuracy);
      TruncDivPositive(scaled, outRate);
      DivMod(q, p);
      (q > 0, Linear(accuracy, q / p, q % p, 0, 0, 0, 0))
  }

  /** The clock step after an emitted sample (lines 84-86): the fraction
      absorbs dTf and carries its overflow into T. */
  function Advance(st: Linear): (r: Linear)
    ensures Time(r) == Time(st) + Quotient(st)
    ensures 0 <= r.Tf < Pow2(st.accuracy)
    ensures 0 <= st.Tf < Pow2(st.accuracy) && 0 <= st.dTf < Pow2(st.accuracy) ==>
      r.T == st.T + st.dT + (if st.Tf + st.dTf >= Pow2(st.accuracy) then 1 else 0)
    ensures r == st.(T := r.T, Tf := r.Tf)
  {
    var t := st.Tf + st.dTf;
    var p := Pow2(st.accuracy);
    var carry := t / p;
    DivMod(t, p);
    Distribute(st.T, st.dT, carry, p);
    st.(T := st.T + st.dT + carry, Tf := t % p)
  }

  /** x * d scaled down by p, for a fraction x / p in [0, 1), lies between 0 and d. */
  lemma ScaledFraction(x: int, d: int, p: int)
    requires 0 <= x < p
    ensures d >= 0 ==> 0 <= (x * d) / p <= d
    ensures d < 0 ==> d <= (x * d) / p <= 0
  {
    if d >= 0 {
      ScaledUp(x, d, p);
    } else {
      ScaledDown(x, -d, p);
      assert x * d == -(x * -d);
    }
  }

  lemma ScaledUp(x: int, d: int, p: int)
    requires 0 <= x < p && d >= 0
    ensures 0 <= (x * d) / p <= d
  {
    var xd := x * d;
    var q := xd / p;
    DivMod(xd, p);
    MulLe(0, x, d);
    MulLe(x, p, d);
    if q > d {
      MulLe(d + 1, q, p);
      Distribute(d, 1, 0, p);
      assert false;
    }
    if q < 0 {
      MulLe(q, -1, p);
      assert false;
    }
  }

  /** The negative case: -(x * e) / p, rounded down, lies between -e and 0. */
  lemma ScaledDown(x: int, e: int, p: int)
    requires 0 <= x < p && e > 0
    ensures -e <= (-(x * e)) / p <= 0
  {
    var xe := x * e;
    var q := (-xe) / p;
    DivMod(-xe, p);
    MulLe(0, x, e);
    MulLe(x, p, e);
    if q < -e {
      MulLe(q + 1, -e, p);
      Distribute(q, 1, 0, p);
      assert false;
    }
    if q > 0 {
      MulLe(1, q, p);
      assert false;
    }
  }

  /** One output sample (line 80): the blend of the last consumed sample
      and the next one at fraction Tf / 2^accuracy, with the C++ arithmetic
      right shift. */
  function Blend(previous: int, current: int, Tf: int, accuracy: nat): (r: int)
    requires 0 <= Tf < Pow2(accuracy)
    ensures Min(previous, current) <= r <= Max(previous, current)
    ensures Tf == 0 ==> r == previous
  {
    BlendBetween(previous, current, Tf, Pow2(accuracy));
    previous + (Tf * (current - previous)) / Pow2(accuracy)
  }

  lemma BlendBetween(previous: int, current: int, x: int, p: int)
    requires 0 <= x < p
    ensures var r := previous + (x * (current - previous)) / p;
      Min(previous, current) <= r <= Max(previous, current) && (x == 0 ==> r == previous)
  {
    var d := current - previous;
    ScaledFraction(x, d, p);
    if x == 0 {
      assert x * d == 0;
    }
  }

  /** The end-of-call carry (lines 68-76): both counters drop by the smaller
      of them, so the lag survives into the next call. */
  function Carry(st: Linear): (r: Linear)
    ensures r.inT - r.T == st.inT - st.T
    ensures r.inT >= 0 && r.T >= 0 && (r.inT == 0 || r.T == 0)
    ensures r == st.(inT := r.inT, T := r.T)
  {
    if st.inT < st.T then st.(T := st.T - st.inT, inT := 0)
    else st.(inT := st.inT - st.T, T := 0)
  }

  /** Consuming one sample adds one whole sample to the lag. */
  lemma LagConsume(st: Linear, x: int)
    ensures Lag(st.(previous := x, inT := st.inT + 1)) == Lag(st) + Pow2(st.accuracy)
  {
    Distribute(st.inT, 1, 0, Pow2(st.accuracy));
  }

  /** Emitting one sample takes one step off the lag. */
  lemma LagAdvance(st: Linear)
    ensures Lag(Advance(st)) == Lag(st) - Quotient(st)
  {
  }

  lemma LagCarry(st: Linear)
    ensures Lag(Carry(st)) == Lag(st)
  {
    var r := Carry(st);
    var p := Pow2(st.accuracy);
    assert r.inT * p - r.T * p == (r.inT - r.T) * p;
    assert st.inT * p - st.T * p == (st.inT - st.T) * p;
  }

  /** A consistent state holds a lag in (-Quotient, 2^accuracy]. */
  lemma LagBounds(st: Linear)
    requires Valid(st)
    ensures -Quotient(st) < Lag(st) <= Pow2(st.accuracy) - st.Tf
    ensures st.inT > st.T ==> Lag(st) == Pow2(st.accuracy) - st.Tf
  {
    var p := Pow2(st.accuracy);
    assert Lag(st) == (st.inT - st.T) * p - st.Tf;
    MulLe(st.inT - st.T, 1, p);
  }

  datatype Outcome = Outcome(st: Linear, out: seq<int>)

  /** The termination measure of an emitting stretch: the positive part of the lag. */
  function Budget(st: Linear): nat
  {
    if Lag(st) > 0 then Lag(st) else 0
  }

  /** An emission is due only while the lag is positive, and it shrinks the lag. */
  lemma EmitShrinksBudget(st: Linear)
    requires Stepping(st) && st.inT > st.T
    ensures Stepping(Advance(st)) && Budget(Advance(st)) < Budget(st)
  {
    LagAdvance(st);
    MulLe(st.T + 1, st.inT, Pow2(st.accuracy));
  }

  /** The reference semantics of `process` from input position s: consume
      while the next output instant is not yet covered by input, otherwise
      emit one sample; on exhausting the input apply the carry. */
  function Run(st: Linear, input: seq<int>, s: nat): (r: Outcome)
    requires s < |input| && Stepping(st)
    ensures r.st.accuracy == st.accuracy && r.st.dT == st.dT && r.st.dTf == st.dTf
    ensures Stepping(r.st)
    ensures r.st.previous == input[|input| - 1]
    decreases |input| - s, Budget(st)
  {
    if st.inT <= st.T then
      var st1 := st.(previous := input[s], inT := st.inT + 1);
      if s + 1 >= |input| then Outcome(Carry(st1), [])
      else Run(st1, input, s + 1)
    else
      var y := Blend(st.previous, input[s], st.Tf, st.accuracy);
      EmitShrinksBudget(st);
      var r := Run(Advance(st), input, s);
      Outcome(r.st, [y] + r.out)
  }

  /** The accounting law of a call: every consumed sample adds 2^accuracy
      to the lag and every emitted sample removes one step, so no input is
      skipped and none is replayed. */
  lemma {:induction false} RunAccounts(st: Linear, input: seq<int>, s: nat)
    requires s < |input| && Stepping(st)
    ensures var r := Run(st, input, s);
      Lag(r.st) == Lag(st) + (|input| - s) * Pow2(st.accuracy) - |r.out| * Quotient(st)
    decreases |input| - s, Budget(st)
  {
    var p := Pow2(st.accuracy);
    var q := Quotient(st);
    var r := Run(st, input, s);
    if st.inT <= st.T {
      var st1 := st.(previous := input[s], inT := st.inT + 1);
      LagConsume(st, input[s]);
      if s + 1 >= |input| {
        LagCarry(st1);
        assert r.out == [];
        assert |input| - s == 1;
      } else {
        RunAccounts(st1, input, s + 1);
        Distribute(|input| - (s + 1), 1, 0, p);
      }
    } else {
      LagAdvance(st);
      EmitShrinksBudget(st);
      var st2 := Advance(st);
      RunAccounts(st2, input, s);
      var r2 := Run(st2, input, s);
      assert |r.out| == |r2.out| + 1;
      Distribute(|r2.out|, 1, 0, q);
    }
  }

  /** One emission keeps a consistent state consistent. */
  lemma AdvanceKeepsValid(st: Linear)
    requires Valid(st) && st.inT > st.T
    ensures Valid(Advance(st))
  {
    var p := Pow2(st.accuracy);
    LagBounds(st);
    LagAdvance(st);
    if st.dT < 0 {
      MulLe(st.dT, -1, p);
    }
  }

  /** A call keeps a consistent state consistent. */
  lemma {:induction false} RunKeepsValid(st: Linear, input: seq<int>, s: nat)
    requires s < |input| && Valid(st)
    ensures Valid(Run(st, input, s).st)
    decreases |input| - s, Budget(st)
  {
    if st.inT <= st.T {
      var st1 := st.(previous := input[s], inT := st.inT + 1);
      LagConsume(st, input[s]);
      if s + 1 >= |input| {
        LagCarry(st1);
      } else {
        RunKeepsValid(st1, input, s + 1);
      }
    } else {
      EmitShrinksBudget(st);
      AdvanceKeepsValid(st);
      RunKeepsValid(Advance(st), input, s);
    }
  }

  /** `process` (lines 61-99) over one chunk of input; the state carries over
      to the next call. The chunk must not be empty: the source reads in[0]
      unconditionally. A positive step is all the loops need to end; the
      accounting of a call is RunAccounts. */
  method Process(st: Linear, input: seq<int>) returns (next: Linear, out: seq<int>)
    requires Stepping(st) && |input| > 0
    ensures Outcome(next, out) == Run(st, input, 0)
    ensures Valid(st) ==> Valid(next)
    ensures next.previous == input[|input| - 1]
  {
    if Valid(st) {
      RunKeepsValid(st, input, 0);
    }
    var cur := st;
    var s := 0;
    out := [];
    while true
      invariant s < |input| && Stepping(cur)
      invariant Run(st, input, 0) == Outcome(Run(cur, input, s).st, out + Run(cur, input, s).out)
      decreases |input| - s, Budget(cur)
    {
      if cur.inT <= cur.T {
        cur := cur.(previous := input[s], inT := cur.inT + 1);
        s := s + 1;
        if s >= |input| {
          next := Carry(cur);
          return;
        }
      } else {
        var y := Blend(cur.previous, input[s], cur.Tf, cur.accuracy);
        EmitShrinksBudget(cur);
        out := out + [y];
        cur := Advance(cur);
      }
    }
  }

  /** Every output of a call lies in the range of the samples it blends,
      so the conversion to T never overflows. */
  lemma {:induction false} OutputsStayInRange(t: ElemRange, st: Linear, input: seq<int>, s: nat)
    requires s < |input| && Stepping(st)
    requires InRange(t, st.previous)
    requires forall i | s <= i < |input| :: InRange(t, input[i])
    ensures forall y <- Run(st, input, s).out :: InRange(t, y)
    decreases |input| - s, Budget(st)
  {
    if st.inT <= st.T {
      var st1 := st.(previous := input[s], inT := st.inT + 1);
      if s + 1 < |input| {
        OutputsStayInRange(t, st1, input, s + 1);
      }
    } else {
      EmitShrinksBudget(st);
      OutputsStayInRange(t, Advance(st), input, s);
    }
  }

  /** Over a call, the number of outputs matches the ratio: |out| * q is
      within q + 2^accuracy of |input| * 2^accuracy. */
  /** The step `init` computes is the exact ratio inRate / outRate rounded
      down to a multiple of 2^-accuracy: the clock never moves faster than
      the exact ratio and falls short of it by less than 2^-accuracy samples
      per output, so the output count follows 2^accuracy / Quotient rather
      than outRate / inRate, with a drift that grows with the stream. */
  lemma StepBracketsRatio(prev: Linear, inRate: int, outRate: int, accuracy: nat)
    requires Init(prev, inRate, outRate, accuracy).0
    ensures Quotient(Init(prev, inRate, outRate, accuracy).1) * Abs(outRate) <= Abs(inRate) * Pow2(accuracy)
    ensures Abs(inRate) * Pow2(accuracy) < (Quotient(Init(prev, inRate, outRate, accuracy).1) + 1) * Abs(outRate)
  {
    var q := Quotient(Init(prev, inRate, outRate, accuracy).1);
    assert q == TruncDiv(inRate * Pow2(accuracy), outRate);
    ScaledQuotientBrackets(inRate, Pow2(accuracy), outRate);
  }

  lemma RatioFidelity(st: Linear, input: seq<int>)
    requires Valid(st) && |input| > 0
    ensures var r := Run(st, input, 0);
      var p := Pow2(st.accuracy);
      var q := Quotient(st);
      |input| * p - p - q < |r.out| * q < |input| * p + p + q
  {
    var r := Run(st, input, 0);
    RunAccounts(st, input, 0);
    RunKeepsValid(st, input, 0);
    LagBounds(st);
    LagBounds(r.st);
  }

  function Shift(st: Linear, c: int): Linear
  {
    st.(inT := st.inT - c, T := st.T - c)
  }

  /** Only the difference of the two counters matters to `process`. */
  lemma {:induction false} RunIgnoresShift(st: Linear, c: int, input: seq<int>, s: nat)
    requires s < |input| && Stepping(st)
    ensures Run(Shift(st, c), input, s) == Run(st, input, s)
    decreases |input| - s, Budget(st)
  {
    if st.inT <= st.T {
      var st1 := st.(previous := input[s], inT := st.inT + 1);
      assert Shift(st, c).(previous := input[s], inT := st.inT - c + 1) == Shift(st1, c);
      if s + 1 < |input| {
        RunIgnoresShift(st1, c, input, s + 1);
      }
    } else {
      EmitShrinksBudget(st);
      assert Advance(Shift(st, c)) == Shift(Advance(st), c);
      RunIgnoresShift(Advance(st), c, input, s);
    }
  }

  /** `process` reads only the input from position s on. */
  lemma {:induction false} RunReadsSuffix(st: Linear, x: seq<int>, s: nat, y: seq<int>, t: nat)
    requires s < |x| && t < |y| && x[s..] == y[t..] && Stepping(st)
    ensures Run(st, x, s) == Run(st, y, t)
    decreases |x| - s, Budget(st)
  {
    assert x[s] == x[s..][0] == y[t..][0] == y[t];
    if st.inT <= st.T {
      var st1 := st.(previous := x[s], inT := st.inT + 1);
      if s + 1 < |x| {
        assert x[s + 1..] == x[s..][1..] == y[t..][1..] == y[t + 1..];
        RunReadsSuffix(st1, x, s + 1, y, t + 1);
      }
    } else {
      EmitShrinksBudget(st);
      RunReadsSuffix(Advance(st), x, s, y, t);
    }
  }

  lemma {:induction false} StreamingFrom(st: Linear, a: seq<int>, b: seq<int>, s: nat)
    requires s < |a| && |b| > 0 && Stepping(st)
    ensures var ra := Run(st, a, s);
      var rb := Run(ra.st, b, 0);
      Run(st, a + b, s) == Outcome(rb.st, ra.out + rb.out)
    decreases |a| - s, Budget(st)
  {
    var ab := a + b;
    assert ab[s] == a[s];
    if st.inT <= st.T {
      var st1 := st.(previous := a[s], inT := st.inT + 1);
      if s + 1 >= |a| {
        assert ab[|a|..] == b[0..];
        RunReadsSuffix(st1, ab, |a|, b, 0);
        var c := if st1.inT < st1.T then st1.inT else st1.T;
        assert Carry(st1) == Shift(st1, c);
        RunIgnoresShift(st1, c, b, 0);
      } else {
        StreamingFrom(st1, a, b, s + 1);
      }
    } else {
      EmitShrinksBudget(st);
      StreamingFrom(Advance(st), a, b, s);
      var rest := Run(Advance(st), a, s);
      var rb := Run(rest.st, b, 0);
      var y := Blend(st.previous, a[s], st.Tf, st.accuracy);
      assert [y] + (rest.out + rb.out) == ([y] + rest.out) + rb.out;
    }
  }

  /** Streaming equivalence: converting a + b in one call yields the same
      output and the same final state as converting a, then b. */
  lemma StreamingEquivalence(st: Linear, a: seq<int>, b: seq<int>)
    requires Stepping(st) && |a| > 0 && |b| > 0
    ensures var ra := Run(st, a, 0);
      var rb := Run(ra.st, b, 0);
      Run(st, a + b, 0) == Outcome(rb.st, ra.out + rb.out)
  {
    StreamingFrom(st, a, b, 0);
  }

  /** A unit step (equal rates) keeps the fraction at zero and emits the
      last consumed sample at every output instant. */
  lemma {:induction false} UnitStepRun(st: Linear, x: seq<int>, s: nat)
    requires s < |x|
    requires st.dT == 1 && st.dTf == 0 && st.Tf == 0
    requires st.inT == st.T || st.inT == st.T + 1
    ensures Stepping(st)
    ensures Run(st, x, s).out == (if st.inT == st.T + 1 then [st.previous] else []) + x[s..|x| - 1]
    decreases |x| - s, if st.inT == st.T + 1 then 1 else 0
  {
    assert Quotient(st) == Pow2(st.accuracy);
    if st.inT <= st.T {
      var st1 := st.(previous := x[s], inT := st.inT + 1);
      if s + 1 < |x| {
        UnitStepRun(st1, x, s + 1);
        assert [x[s]] + x[s + 1..|x| - 1] == x[s..|x| - 1];
      }
    } else {
      var st2 := Advance(st);
      assert st2 == st.(T := st.T + 1);
      UnitStepRun(st2, x, s);
    }
  }

  /** Identity ratio: with equal rates a fresh converter reproduces its
      input delayed by exactly one sample, whatever the accuracy. */
  lemma IdentityRatio(prev: Linear, rate: int, accuracy: nat, x: seq<int>)
    requires rate != 0 && |x| > 0
    ensures Init(prev, rate, rate, accuracy).0
    ensures Run(Init(prev, rate, rate, accuracy).1, x, 0).out == x[..|x| - 1]
  {
    var p := Pow2(accuracy);
    TruncDivExact(p, rate);
    assert rate * p == p * rate;
    var st := Init(prev, rate, rate, accuracy).1;
    assert st.dT * p + st.dTf == p;
    if st.dT <= 0 {
      MulLe(st.dT, 0, p);
    } else if st.dT >= 2 {
      MulLe(2, st.dT, p);
    }
    UnitStepRun(st, x, 0);
  }

  /** The 32-bit int maximum, the width of the source's `1 << accuracy`. */
  const IntMax: int := 0x7FFF_FFFF

  /** The mask as written (line 35): `(1 << accuracy) - 1` with an int shift,
      None where the shift overflows int, which is undefined behaviour. */
  function MaskAsWritten(accuracy: nat): (r: Option<int>)
    ensures r.Some? <==> accuracy <= 30
    ensures r.Some? ==> r.value == Mask(accuracy)
  {
    Pow2AtIntBoundary(accuracy);
    if Pow2(accuracy) <= IntMax then Some(Pow2(accuracy) - 1) else None
  }

  /** `init` as written: None where its C++ behaviour is undefined, that is
      when the int shift overflows or outRate is zero (division by zero);
      elsewhere it agrees with Init. */
  function InitAsWritten(prev: Linear, inRate: int, outRate: int, accuracy: nat): (r: Option<(bool, Linear)>)
    ensures r.None? <==> accuracy >= 31 || outRate == 0
    ensures r.Some? ==> r.value == Init(prev, inRate, outRate, accuracy)
  {
    if MaskAsWritten(accuracy).None? || outRate == 0 then None
    else Some(Init(prev, inRate, outRate, accuracy))
  }

  /** Accuracies 31 and 32, inside the range 2..32 the command line
      accepts, overflow the int shift, and `init` reaches no defined state. */
  lemma MaskOverflowAsWritten(prev: Linear, inRate: int, outRate: int)
    ensures MaskAsWritten(31) == None && MaskAsWritten(32) == None
    ensures InitAsWritten(prev, inRate, outRate, 31) == None
    ensures InitAsWritten(prev, inRate, outRate, 32) == None
  {
  }

  /** A zero output rate reaches the integer division by zero. */
  lemma DivisionByZeroAsWritten(prev: Linear, inRate: int, accuracy: nat)
    ensures InitAsWritten(prev, inRate, 0, accuracy) == None
    ensures !Init(prev, inRate, 0, accuracy).0
  {
  }
}
