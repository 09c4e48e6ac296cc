/** The virtual-time accumulator shared by SrcLagrange<T> and SrcFir<T>:
    the output time T (a double in the source, an exact real here) grows by
    dT = inRate / outRate per emitted sample, and inT counts the consumed
    input samples. Both converters run the same consume/emit loop and the
    same end-of-call carry; only what they do with a consumed sample (their
    history H) and how they compute an output differ, so the loop is stated
    once, generic in H. */
module PhaseClock {
  import opened Numeric

  datatype Phase = Phase(dT: real, T: real, inT: int)

  /** A fractional position in [0, 1). */
  type Unit = r: real | 0.0 <= r < 1.0

  /** The states reachable from a successful `init`: a positive step, a
      non-negative time, and consumed input at most one sample ahead of the
      whole part of T and less than one step behind T. */
  predicate Valid(p: Phase)
  {
    && p.dT > 0.0
    && p.T >= 0.0
    && 0 <= p.inT <= Trunc(p.T) + 1
    && p.inT as real - p.T > -p.dT
  }

  /** The loop keeps consuming while `m_inT <= m_T` (FIR, line 343). */
  predicate NeedsInput(p: Phase)
  {
    p.inT as real <= p.T
  }

  /** Lagrange tests `m_inT <= (int)m_T` instead (line 159); on a
      non-negative time the two tests agree. */
  lemma NeedsInputTruncated(p: Phase)
    requires p.T >= 0.0
    ensures p.inT <= Trunc(p.T) <==> NeedsInput(p)
  {
  }

  /** The fractional part of T as the source computes it, `m_T - (double)(int)m_T`. */
  function Frac(p: Phase): (r: Unit)
    requires p.T >= 0.0
    ensures r == p.T - p.T.Floor as real
  {
    p.T - Trunc(p.T) as real
  }

  /** `m_inT++` on consuming one sample: the input lead grows by one sample,
      and a consistent state that needed input stays consistent. */
  function Consume(p: Phase): (r: Phase)
    ensures r.inT as real - r.T == p.inT as real - p.T + 1.0
    ensures r.dT == p.dT && r.T == p.T
    ensures Valid(p) && NeedsInput(p) ==> Valid(r)
  {
    p.(inT := p.inT + 1)
  }

  /** `m_T = m_T + m_dT` after emitting one sample: the input lead shrinks by
      one step, and a consistent state that had input in hand stays consistent. */
  function Advance(p: Phase): (r: Phase)
    ensures r.inT as real - r.T == p.inT as real - p.T - p.dT
    ensures r.dT == p.dT && r.inT == p.inT
    ensures Valid(p) && !NeedsInput(p) ==> Valid(r)
  {
    p.(T := p.T + p.dT)
  }

  /** Moving both counters back by a whole number of samples. */
  function Shift(p: Phase, c: int): Phase
  {
    p.(T := p.T - c as real, inT := p.inT - c)
  }

  /** Moving a non-negative time back by whole samples, keeping it
      non-negative, keeps its fractional part. */
  lemma ShiftKeepsFrac(p: Phase, c: int)
    requires p.T >= 0.0 && c as real <= p.T
    ensures Shift(p, c).T >= 0.0
    ensures Trunc(Shift(p, c).T) == Trunc(p.T) - c
    ensures Frac(Shift(p, c)) == Frac(p)
  {
    var t := Trunc(p.T);
    assert (t - c) as real <= p.T - c as real < (t - c) as real + 1.0;
  }

  /** The end-of-call carry (lines 164-170 and 352-358). Both branches move
      the two counters back by the same whole number of samples, so the
      distance between them and the fractional part of T survive into the
      next call, and afterwards one of them has no whole part left. */
  function Carry(p: Phase): (r: Phase)
    requires p.T >= 0.0
    ensures r.inT as real - r.T == p.inT as real - p.T
    ensures r.dT == p.dT && r.T >= 0.0 && r.inT >= 0
    ensures Frac(r) == Frac(p)
    ensures r.inT == 0 || Trunc(r.T) == 0
  {
    if (p.inT as real) < p.T then
      ShiftKeepsFrac(p, p.inT);
      Phase(p.dT, p.T - p.inT as real, 0)
    else
      ShiftKeepsFrac(p, Trunc(p.T));
      Phase(p.dT, p.T - Trunc(p.T) as real, p.inT - Trunc(p.T))
  }

  /** The number of emissions still possible before input is needed again. */
  function Budget(p: Phase): nat
    requires p.dT > 0.0
  {
    if p.inT as real > p.T then ((p.inT as real - p.T) / p.dT).Floor + 1 else 0
  }

  lemma DivUnique(z: real, d: real, w: real)
    requires d != 0.0 && w * d == z
    ensures z / d == w
  {
  }

  lemma EmitShrinksBudget(p: Phase)
    requires p.dT > 0.0 && !NeedsInput(p)
    ensures Budget(Advance(p)) < Budget(p)
  {
    var q := Advance(p);
    var a := p.inT as real - p.T;
    var x := a / p.dT;
    assert q.inT as real - q.T == a - p.dT;
    assert Budget(p) == x.Floor + 1;
    if a - p.dT > 0.0 {
      assert x * p.dT == a;
      assert (x - 1.0) * p.dT == a - p.dT;
      DivUnique(a - p.dT, p.dT, x - 1.0);
      assert Budget(q) == (x - 1.0).Floor + 1 == x.Floor;
    } else {
      assert Budget(q) == 0;
    }
  }

  datatype Outcome<H> = Outcome(phase: Phase, hist: H, out: seq<int>)

  /** The reference semantics of `process` from input position s, with
      `push` storing a consumed sample into the history and `emit` computing
      an output from the history and the fractional part of T. */
  function Run<H>(p: Phase, h: H, input: seq<int>, s: nat,
                  push: (H, int) -> H, emit: (H, Unit) -> int): (r: Outcome<H>)
    requires s < |input| && p.dT > 0.0 && p.T >= 0.0
    ensures r.phase.dT == p.dT && r.phase.T >= 0.0
    decreases |input| - s, Budget(p)
  {
    if NeedsInput(p) then
      var h1 := push(h, input[s]);
      if s + 1 >= |input| then Outcome(Carry(Consume(p)), h1, [])
      else Run(Consume(p), h1, input, s + 1, push, emit)
    else
      var y := emit(h, Frac(p));
      EmitShrinksBudget(p);
      var r := Run(Advance(p), h, input, s, push, emit);
      Outcome(r.phase, r.hist, [y] + r.out)
  }

  /** One consumption step of Run, unfolded. */
  lemma RunConsumes<H>(p: Phase, h: H, input: seq<int>, s: nat,
                       push: (H, int) -> H, emit: (H, Unit) -> int)
    requires s < |input| && p.dT > 0.0 && p.T >= 0.0 && NeedsInput(p)
    ensures s + 1 < |input| ==>
      Run(p, h, input, s, push, emit) == Run(Consume(p), push(h, input[s]), input, s + 1, push, emit)
    ensures s + 1 >= |input| ==>
      Run(p, h, input, s, push, emit) == Outcome(Carry(Consume(p)), push(h, input[s]), [])
  {
  }

  /** One emission step of Run, unfolded. */
  lemma RunEmits<H>(p: Phase, h: H, input: seq<int>, s: nat,
                    push: (H, int) -> H, emit: (H, Unit) -> int)
    requires s < |input| && p.dT > 0.0 && p.T >= 0.0 && !NeedsInput(p)
    ensures var r := Run(Advance(p), h, input, s, push, emit);
      Run(p, h, input, s, push, emit) == Outcome(r.phase, r.hist, [emit(h, Frac(p))] + r.out)
  {
    EmitShrinksBudget(p);
  }

  /** n steps of length d, summed one at a time (equal to n * d, see
      StepsAreProduct); stating the accounting law through this sum keeps
      its proof linear. */
  function Steps(n: nat, d: real): real
  {
    if n == 0 then 0.0 else Steps(n - 1, d) + d
  }

  lemma {:induction false} StepsAreProduct(n: nat, d: real)
    ensures Steps(n, d) == n as real * d
  {
    if n > 0 {
      StepsAreProduct(n - 1, d);
      assert n as real * d == (n - 1) as real * d + d;
    }
  }

  /** The accounting law of a call: each consumed sample moves inT one
      ahead, each emitted sample moves T one step ahead, and nothing else
      moves them, so no input is skipped or replayed. */
  lemma {:induction false} RunAccounts<H>(p: Phase, h: H, input: seq<int>, s: nat,
                                          push: (H, int) -> H, emit: (H, Unit) -> int)
    requires s < |input| && p.dT > 0.0 && p.T >= 0.0
    ensures var r := Run(p, h, input, s, push, emit);
      r.phase.inT as real - r.phase.T
        == p.inT as real - p.T + (|input| - s) as real - Steps(|r.out|, p.dT)
    decreases |input| - s, Budget(p)
  {
    if NeedsInput(p) {
      if s + 1 < |input| {
        RunAccounts(Consume(p), push(h, input[s]), input, s + 1, push, emit);
      }
    } else {
      EmitShrinksBudget(p);
      RunAccounts(Advance(p), h, input, s, push, emit);
    }
  }

  /** A call keeps a consistent phase consistent. */
  lemma {:induction false} RunKeepsValid<H>(p: Phase, h: H, input: seq<int>, s: nat,
                                            push: (H, int) -> H, emit: (H, Unit) -> int)
    requires s < |input| && Valid(p)
    ensures Valid(Run(p, h, input, s, push, emit).phase)
    decreases |input| - s, Budget(p)
  {
    if NeedsInput(p) {
      if s + 1 < |input| {
        RunKeepsValid(Consume(p), push(h, input[s]), input, s + 1, push, emit);
      }
    } else {
      EmitShrinksBudget(p);
      assert Trunc(p.T) <= Trunc(p.T + p.dT);
      RunKeepsValid(Advance(p), h, input, s, push, emit);
    }
  }

  /** Ratio fidelity: over a call from a consistent phase, the |out| steps
      of dT taken (|out| * dT, by StepsAreProduct) stay within 1 + dT of
      |input|, so the output count tracks |input| * outRate / inRate without
      drift. */
  lemma RatioFidelity<H>(p: Phase, h: H, input: seq<int>,
                         push: (H, int) -> H, emit: (H, Unit) -> int)
    requires |input| > 0 && Valid(p)
    ensures var n := |Run(p, h, input, 0, push, emit).out|;
      |input| as real - 1.0 - p.dT < Steps(n, p.dT) < |input| as real + 1.0 + p.dT
  {
    RunAccounts(p, h, input, 0, push, emit);
    RunKeepsValid(p, h, input, 0, push, emit);
  }

  /** Only the distance between the two counters and the fraction of T
      matter to `process`; the final carry removes any whole-sample shift. */
  lemma {:induction false} RunIgnoresShift<H>(p: Phase, c: int, h: H, input: seq<int>, s: nat,
                                              push: (H, int) -> H, emit: (H, Unit) -> int)
    requires s < |input| && p.dT > 0.0 && p.T >= 0.0 && c as real <= p.T
    ensures Run(Shift(p, c), h, input, s, push, emit) == Run(p, h, input, s, push, emit)
    decreases |input| - s, Budget(p)
  {
    ShiftKeepsFrac(p, c);
    if NeedsInput(p) {
      assert Consume(Shift(p, c)) == Shift(Consume(p), c);
      ShiftKeepsFrac(Consume(p), c);
      if s + 1 >= |input| {
        var p1 := Consume(p);
        if (p1.inT as real) < p1.T {
          ShiftKeepsFrac(p1, p1.inT);
        } else {
          ShiftKeepsFrac(p1, Trunc(p1.T));
        }
      } else {
        RunIgnoresShift(Consume(p), c, push(h, input[s]), input, s + 1, push, emit);
      }
    } else {
      EmitShrinksBudget(p);
      assert Advance(Shift(p, c)) == Shift(Advance(p), c);
      RunIgnoresShift(Advance(p), c, h, input, s, push, emit);
    }
  }

  /** `process` reads only the input from position s on. */
  lemma {:induction false} RunReadsSuffix<H>(p: Phase, h: H, x: seq<int>, s: nat, y: seq<int>, t: nat,
                                             push: (H, int) -> H, emit: (H, Unit) -> int)
    requires s < |x| && t < |y| && x[s..] == y[t..] && p.dT > 0.0 && p.T >= 0.0
    ensures Run(p, h, x, s, push, emit) == Run(p, h, y, t, push, emit)
    decreases |x| - s, Budget(p)
  {
    assert x[s] == x[s..][0] == y[t..][0] == y[t];
    if NeedsInput(p) {
      if s + 1 < |x| {
        assert x[s + 1..] == x[s..][1..] == y[t..][1..] == y[t + 1..];
        RunReadsSuffix(Consume(p), push(h, x[s]), x, s + 1, y, t + 1, push, emit);
      }
    } else {
      EmitShrinksBudget(p);
      RunReadsSuffix(Advance(p), h, x, s, y, t, push, emit);
    }
  }

  lemma {:induction false} StreamingFrom<H>(p: Phase, h: H, a: seq<int>, b: seq<int>, s: nat,
                                            push: (H, int) -> H, emit: (H, Unit) -> int)
    requires s < |a| && |b| > 0 && p.dT > 0.0 && p.T >= 0.0
    ensures var ra := Run(p, h, a, s, push, emit);
      var rb := Run(ra.phase, ra.hist, b, 0, push, emit);
      Run(p, h, a + b, s, push, emit) == Outcome(rb.phase, rb.hist, ra.out + rb.out)
    decreases |a| - s, Budget(p)
  {
    var ab := a + b;
    assert ab[s] == a[s];
    if NeedsInput(p) {
      var p1 := Consume(p);
      var h1 := push(h, a[s]);
      if s + 1 >= |a| {
        assert ab[|a|..] == b[0..];
        RunReadsSuffix(p1, h1, ab, |a|, b, 0, push, emit);
        var c := if (p1.inT as real) < p1.T then p1.inT else Trunc(p1.T);
        assert Carry(p1) == Shift(p1, c);
        RunIgnoresShift(p1, c, h1, b, 0, push, emit);
      } else {
        StreamingFrom(p1, h1, a, b, s + 1, push, emit);
      }
    } else {
      EmitShrinksBudget(p);
      StreamingFrom(Advance(p), h, a, b, s, push, emit);
      var rest := Run(Advance(p), h, a, s, push, emit);
      var rb := Run(rest.phase, rest.hist, b, 0, push, emit);
      var y := emit(h, Frac(p));
      assert [y] + (rest.out + rb.out) == ([y] + rest.out) + rb.out;
    }
  }

  /** Streaming equivalence: converting a + b in one call yields the same
      output, history and phase as converting a, then b. */
  lemma StreamingEquivalence<H>(p: Phase, h: H, a: seq<int>, b: seq<int>,
                                push: (H, int) -> H, emit: (H, Unit) -> int)
    requires |a| > 0 && |b| > 0 && p.dT > 0.0 && p.T >= 0.0
    ensures var ra := Run(p, h, a, 0, push, emit);
      var rb := Run(ra.phase, ra.hist, b, 0, push, emit);
      Run(p, h, a + b, 0, push, emit) == Outcome(rb.phase, rb.hist, ra.out + rb.out)
  {
    StreamingFrom(p, h, a, b, 0, push, emit);
  }
}
