/** SrcFir<T>: sample-rate conversion with a windowed-sinc FIR filter
    sampled `oversampling` times finer than the input. The filter has
    N = oversampling * mul taps; because it is symmetric only its first half
    is stored (m_fir, N / 2 entries) and the second half is read mirrored.
    The delay line m_buff holds the last mul input samples, newest first.
    Each output sums mul taps spaced `oversampling` apart, starting at the
    offset nearest to the fractional part of the clock. The clock is the
    shared PhaseClock; the coefficient values are an input (their design
    uses floating-point trigonometry). */
module FirSrc {
  import opened Numeric
  import PhaseClock

  /** Oversampling factor, stored half of the filter, and delay line; mul is
      the length of the line. */
  datatype Bank = Bank(os: int, table: seq<real>, line: seq<int>)

  /** A bank `init` can build: positive oversampling and mul, and a table
      holding exactly half of the os * mul taps. */
  type Filter = f: Bank | f.os >= 1 && |f.line| >= 1 && 2 * |f.table| == f.os * |f.line|
    witness Bank(2, [0.0], [0])

  /** The number of taps N = oversampling * mul; `m_fir_length1` is N - 1. */
  function Length(f: Filter): nat
  {
    2 * |f.table|
  }

  /** Where tap m of the full filter is stored: the first half directly,
      the second half mirrored (the two loops of lines 372-376). */
  function TableIndex(f: Filter, m: int): (k: int)
    requires 0 <= m < Length(f)
    ensures 0 <= k < |f.table|
  {
    if m < |f.table| then m else Length(f) - 1 - m
  }

  /** Tap m of the full filter. */
  function Kernel(f: Filter, m: int): real
    requires 0 <= m < Length(f)
  {
    f.table[TableIndex(f, m)]
  }

  /** The full filter is symmetric: halving the table loses nothing. */
  lemma KernelSymmetric(f: Filter, m: int)
    requires 0 <= m < Length(f)
    ensures Kernel(f, m) == Kernel(f, Length(f) - 1 - m)
  {
  }

  /** The mirror of tap m in a filter of len taps. */
  function Mirror(len: int, m: int): int
  {
    len - 1 - m
  }

  /** Every tap of the second half mirrors into a table of len / 2 entries
      (`m_fir_length1 >> 1`, line 299). */
  predicate MirrorInRange(len: nat)
  {
    forall m :: len / 2 <= m < len ==> 0 <= Mirror(len, m) < len / 2
  }

  /** The mirrored read stays inside the table exactly when the number of
      taps is even. */
  lemma MirrorInRangeIffEven(len: nat)
    requires len >= 1
    ensures MirrorInRange(len) <==> len % 2 == 0
  {
    if len % 2 == 1 {
      var m := len / 2;
      assert Mirror(len, m) == len / 2;
    }
  }

  lemma HalfParity(m: int, c: int)
    requires 0 <= c < 2
    ensures (2 * m + c) % 2 == c
  {
  }

  /** A product is even exactly when one of its factors is. */
  lemma ProductParity(a: int, b: int)
    ensures (a * b) % 2 == 0 <==> a % 2 == 0 || b % 2 == 0
  {
    var x, ra := a / 2, a % 2;
    var y, rb := b / 2, b % 2;
    assert a == 2 * x + ra && b == 2 * y + rb;
    var m := 2 * x * y + x * rb + y * ra;
    assert a * b == 2 * m + ra * rb;
    assert ra * rb == (if ra == 1 && rb == 1 then 1 else 0);
    HalfParity(m, ra * rb);
  }

  /** The parity test of `init` (line 292) is exactly what the mirrored
      reads need: with positive factors it accepts when N is even. */
  lemma ParityTestGuardsMirror(os: int, mul: int)
    requires os >= 1 && mul >= 1
    ensures !(os % 2 == 1 && mul % 2 == 1) <==> MirrorInRange(os * mul)
  {
    ProductParity(os, mul);
    MulLe(1, os, mul);
    MirrorInRangeIffEven(os * mul);
  }

  /** How many taps spaced os apart, starting at shift, fall inside a filter
      of len taps. */
  function TapCount(os: int, len: int, shift: int): nat
    requires os >= 1
  {
    if shift > len - 1 then 0 else (len - 1 - shift) / os + 1
  }

  /** Tap i exists exactly when its position is at most len - 1. */
  lemma TapCountIff(os: int, len: int, shift: int, i: int)
    requires os >= 1 && shift >= 0 && i >= 0
    ensures i < TapCount(os, len, shift) <==> shift + i * os <= len - 1
  {
    MulLe(0, i, os);
    if shift <= len - 1 {
      var a := len - 1 - shift;
      var q := a / os;
      DivMod(a, os);
      if i <= q {
        MulLe(i, q, os);
      } else {
        MulLe(q + 1, i, os);
        Distribute(q, 1, 0, os);
      }
    }
  }

  /** Each output uses at most mul delay-line samples, and all mul of them
      whenever the offset is below os. */
  lemma TapCountBound(f: Filter, shift: int)
    requires 0 <= shift <= f.os
    ensures TapCount(f.os, Length(f), shift) <= |f.line|
    ensures shift < f.os ==> TapCount(f.os, Length(f), shift) == |f.line|
  {
    var mul := |f.line|;
    TapCountIff(f.os, Length(f), shift, mul);
    assert mul * f.os == Length(f);
    if shift < f.os {
      TapCountIff(f.os, Length(f), shift, mul - 1);
      Distribute(mul - 1, 1, 0, f.os);
    }
  }

  /** Position of tap j for offset shift. */
  function TapPos(f: Filter, shift: int, j: nat): int
  {
    if j == 0 then shift else TapPos(f, shift, j - 1) + f.os
  }

  lemma {:induction false} TapPosIsProduct(f: Filter, shift: int, j: nat)
    ensures TapPos(f, shift, j) == shift + j * f.os
  {
    if j > 0 {
      TapPosIsProduct(f, shift, j - 1);
      Distribute(j - 1, 1, 0, f.os);
    }
  }

  /** Every tap used lies inside the filter, and its delay-line sample
      inside the line (the index bounds of lines 372-376). */
  lemma TapInRange(f: Filter, shift: int, j: nat)
    requires 0 <= shift <= f.os && j < TapCount(f.os, Length(f), shift)
    ensures 0 <= TapPos(f, shift, j) < Length(f)
    ensures j < |f.line|
  {
    TapPosIsProduct(f, shift, j);
    TapCountIff(f.os, Length(f), shift, j);
    TapCountBound(f, shift);
    MulLe(0, j, f.os);
  }

  /** Tap i's contribution: the kernel at its position times the i-th
      newest delay-line sample. */
  function Term(f: Filter, shift: int, i: nat): real
    requires 0 <= shift <= f.os && i < TapCount(f.os, Length(f), shift)
  {
    TapInRange(f, shift, i);
    Kernel(f, TapPos(f, shift, i)) * f.line[i] as real
  }

  /** The filter output over the first n taps. */
  function FirSum(f: Filter, shift: int, n: nat): real
    requires 0 <= shift <= f.os && n <= TapCount(f.os, Length(f), shift)
  {
    if n == 0 then 0.0 else FirSum(f, shift, n - 1) + Term(f, shift, n - 1)
  }

  /** A silent delay line produces a silent output. */
  lemma {:induction false} SilenceIn(f: Filter, shift: int, n: nat)
    requires 0 <= shift <= f.os && n <= TapCount(f.os, Length(f), shift)
    requires forall i | 0 <= i < |f.line| :: f.line[i] == 0
    ensures FirSum(f, shift, n) == 0.0
  {
    if n > 0 {
      TapInRange(f, shift, n - 1);
      SilenceIn(f, shift, n - 1);
      assert Term(f, shift, n - 1) == 0.0;
    }
  }

  /** The starting offset (line 364): the fractional time scaled by os,
      rounded to nearest by adding one half and truncating. */
  function Offset(os: int, u: PhaseClock.Unit): (shift: int)
    requires os >= 1
    ensures 0 <= shift <= os
  {
    ScaleBelow(os as real, u);
    Trunc(0.5 + os as real * u)
  }

  lemma ScaleBelow(a: real, u: real)
    requires a > 0.0 && 0.0 <= u < 1.0
    ensures 0.0 <= a * u < a
  {
    assert a * (1.0 - u) > 0.0;
  }

  /** One output sample at fractional time u (lines 364-383). */
  function Output(t: ElemRange, f: Filter, u: PhaseClock.Unit): (y: int)
    ensures InRange(t, y)
  {
    var shift := Offset(f.os, u);
    Saturate(t, FirSum(f, shift, TapCount(f.os, Length(f), shift)))
  }

  /** One tap step of the loops below: a position inside the filter is a
      tap in use, the next tap sits os further on, and the sum grows by this
      tap's term. */
  lemma TapStep(f: Filter, shift: int, i: nat)
    requires 0 <= shift <= f.os && TapPos(f, shift, i) <= Length(f) - 1
    ensures i < TapCount(f.os, Length(f), shift) && i < |f.line|
    ensures 0 <= TapPos(f, shift, i) && TapPos(f, shift, i + 1) == TapPos(f, shift, i) + f.os
    ensures FirSum(f, shift, i + 1) == FirSum(f, shift, i) + Kernel(f, TapPos(f, shift, i)) * f.line[i] as real
  {
    TapPosIsProduct(f, shift, i);
    TapCountIff(f.os, Length(f), shift, i);
    TapInRange(f, shift, i);
  }

  /** The table entry each loop reads for tap i is the tap's kernel value:
      directly in the stored half, mirrored beyond it. */
  lemma ReadStep(f: Filter, shift: int, i: nat, k: int)
    requires 0 <= shift <= f.os && TapPos(f, shift, i) <= Length(f) - 1
    requires k == (if TapPos(f, shift, i) < |f.table| then TapPos(f, shift, i) else Length(f) - 1 - TapPos(f, shift, i))
    ensures i < TapCount(f.os, Length(f), shift) && i < |f.line| && 0 <= k < |f.table|
    ensures TapPos(f, shift, i + 1) == TapPos(f, shift, i) + f.os
    ensures FirSum(f, shift, i + 1) == FirSum(f, shift, i) + f.table[k] * f.line[i] as real
  {
    TapStep(f, shift, i);
  }

  /** The loops stop at the first position past the filter, which is the
      tap count. */
  lemma TapsExhausted(f: Filter, shift: int, i: nat)
    requires 0 <= shift <= f.os && TapPos(f, shift, i) > Length(f) - 1
    requires i <= TapCount(f.os, Length(f), shift)
    ensures i == TapCount(f.os, Length(f), shift)
  {
    TapPosIsProduct(f, shift, i);
    TapCountIff(f.os, Length(f), shift, i);
  }

  /** The first tap loop (lines 372-373): taps in the stored half, read
      upward from the offset. Returns the partial sum and the number of taps
      used. */
  method StoredHalf(f: Filter, shift: int) returns (fout: real, i: nat)
    requires 0 <= shift <= f.os
    ensures i <= TapCount(f.os, Length(f), shift)
    ensures TapPos(f, shift, i) >= |f.table|
    ensures fout == FirSum(f, shift, i)
  {
    var half := |f.table|;
    fout := 0.0;
    var k := shift;
    i := 0;
    while k < half
      invariant 0 <= i <= TapCount(f.os, Length(f), shift)
      invariant k == TapPos(f, shift, i)
      invariant fout == FirSum(f, shift, i)
      decreases half - k
    {
      ReadStep(f, shift, i, k);
      fout := fout + f.table[k] * f.line[i] as real;
      k := k + f.os;
      i := i + 1;
    }
  }

  /** The second tap loop (lines 374-376): the remaining taps fall in the
      mirrored half, so the table is read downward from m_fir_length1 - k. */
  method MirroredHalf(f: Filter, shift: int, fin: real, i0: nat) returns (fout: real)
    requires 0 <= shift <= f.os && i0 <= TapCount(f.os, Length(f), shift)
    requires TapPos(f, shift, i0) >= |f.table| && fin == FirSum(f, shift, i0)
    ensures fout == FirSum(f, shift, TapCount(f.os, Length(f), shift))
  {
    var half := |f.table|;
    var last := Length(f) - 1;
    fout := fin;
    var i := i0;
    var k := last - TapPos(f, shift, i);
    while k >= 0
      invariant i0 <= i <= TapCount(f.os, Length(f), shift)
      invariant k == last - TapPos(f, shift, i) && TapPos(f, shift, i) >= half
      invariant fout == FirSum(f, shift, i)
      decreases k
    {
      ReadStep(f, shift, i, k);
      fout := fout + f.table[k] * f.line[i] as real;
      k := k - f.os;
      i := i + 1;
    }
    TapsExhausted(f, shift, i);
  }

  /** The filter output of lines 369-376: both tap loops in turn. */
  method FilterSample(f: Filter, shift: int) returns (fout: real)
    requires 0 <= shift <= f.os
    ensures fout == FirSum(f, shift, TapCount(f.os, Length(f), shift))
  {
    var partial, i := StoredHalf(f, shift);
    fout := MirroredHalf(f, shift, partial, i);
  }

  /** Storing one sample (lines 347-350): the line moves down one place,
      dropping its oldest sample, and the new one goes in front. */
  function ShiftIn(f: Filter, x: int): (r: Filter)
    ensures r.os == f.os && r.table == f.table && |r.line| == |f.line|
  {
    f.(line := [x] + f.line[..|f.line| - 1])
  }

  /** The delay-line loop as the source writes it, from the top down. */
  method DelayLine(f: Filter, x: int) returns (r: Filter)
    ensures r == ShiftIn(f, x)
  {
    var line := f.line;
    var i := |line| - 1;
    while i > 0
      invariant 0 <= i < |line| && |line| == |f.line|
      invariant forall j | 0 <= j <= i :: line[j] == f.line[j]
      invariant forall j | i < j < |line| :: line[j] == f.line[j - 1]
    {
      line := line[i := line[i - 1]];
      i := i - 1;
    }
    line := line[0 := x];
    assert line == [x] + f.line[..|f.line| - 1];
    r := f.(line := line);
  }

  function PushAll(f: Filter, xs: seq<int>): (r: Filter)
    ensures r.os == f.os && r.table == f.table && |r.line| == |f.line|
    decreases |xs|
  {
    if xs == [] then f else PushAll(ShiftIn(f, xs[0]), xs[1..])
  }

  function Reverse(xs: seq<int>): (r: seq<int>)
    ensures |r| == |xs|
  {
    if xs == [] then [] else Reverse(xs[1..]) + [xs[0]]
  }

  /** The delay line holds the most recent mul samples, newest first:
      after pushing xs it is the reversed xs followed by the old line, cut
      to mul entries. */
  lemma {:induction false} PushAllNewestFirst(f: Filter, xs: seq<int>)
    ensures PushAll(f, xs).line == (Reverse(xs) + f.line)[..|f.line|]
    decreases |xs|
  {
    if xs != [] {
      var f1 := ShiftIn(f, xs[0]);
      PushAllNewestFirst(f1, xs[1..]);
      var mul := |f.line|;
      var a := Reverse(xs[1..]) + f1.line;
      var b := Reverse(xs) + f.line;
      assert b == Reverse(xs[1..]) + ([xs[0]] + f.line);
      assert a[..mul] == b[..mul];
    }
  }

  /** The converter: filter bank and clock. */
  datatype Fir = Fir(bank: Bank, phase: PhaseClock.Phase)

  /** The states a successful `init` produces and `process` keeps. */
  predicate Valid(st: Fir)
  {
    && st.bank.os >= 1
    && |st.bank.line| >= 1
    && 2 * |st.bank.table| == st.bank.os * |st.bank.line|
    && PhaseClock.Valid(st.phase)
  }

  /** Parameters the corrected `init` refuses: both factors odd (the only
      test the source makes), no delay line, no oversampling, or a zero
      output rate. */
  predicate Rejected(os: int, mul: int, outRate: int)
  {
    !AcceptsAsWritten(os, mul) || os < 1 || mul == 0 || outRate == 0
  }

  /** `init` (lines 291-332). Refused parameters leave the converter as it
      was; otherwise the table holds the first os * mul / 2 designed taps,
      the delay line is cleared, the clock restarts, and success means a
      positive step. */
  function Init(prev: Fir, inRate: int, outRate: int, os: int, mul: Byte, design: int -> real)
    : (r: (bool, Fir))
    ensures Rejected(os, mul, outRate) ==> r == (false, prev)
    ensures !Rejected(os, mul, outRate) ==>
      && r.1.bank.os == os
      && |r.1.bank.table| == os * mul / 2
      && (forall i | 0 <= i < |r.1.bank.table| :: r.1.bank.table[i] == design(i))
      && r.1.bank.line == seq(mul, _ => 0)
      && r.1.phase == PhaseClock.Phase(inRate as real / outRate as real, 0.0, 0)
    ensures r.0 <==> !Rejected(os, mul, outRate) && inRate as real / outRate as real > 0.0
    ensures r.0 ==> Valid(r.1)
  {
    if Rejected(os, mul, outRate) then (false, prev)
    else
      ProductParity(os, mul);
      MulLe(1, os, mul);
      var dT := inRate as real / outRate as real;
      var bank := Bank(os, seq(os * mul / 2, i => design(i)), seq(mul, _ => 0));
      (dT > 0.0, Fir(bank, PhaseClock.Phase(dT, 0.0, 0)))
  }

  /** A successful `init` builds a filter whose mirrored reads stay inside
      the table and whose step is the exact rate ratio. */
  lemma InitBuildsFilter(prev: Fir, inRate: int, outRate: int, os: int, mul: Byte, design: int -> real)
    requires Init(prev, inRate, outRate, os, mul, design).0
    ensures var st := Init(prev, inRate, outRate, os, mul, design).1;
      MirrorInRange(os * mul) && Length(st.bank) == os * mul
      && st.phase.dT * outRate as real == inRate as real
  {
    ParityTestGuardsMirror(os, mul);
    ProductParity(os, mul);
  }

  /** The output computation `process` performs, as a function of the bank. */
  function Emitter(t: ElemRange): (Filter, PhaseClock.Unit) -> int
  {
    (f: Filter, u: PhaseClock.Unit) => Output(t, f, u)
  }

  /** `process` (lines 339-390) over one chunk of input, which must not be
      empty (in[0] is read unconditionally). */
  method Process(t: ElemRange, st: Fir, input: seq<int>) returns (next: Fir, out: seq<int>)
    requires Valid(st) && |input| > 0
    ensures var r := PhaseClock.Run<Filter>(st.phase, st.bank, input, 0, ShiftIn, Emitter(t));
      next == Fir(r.hist, r.phase) && out == r.out
    ensures Valid(next)
    ensures forall y <- out :: InRange(t, y)
  {
    RunKeepsValid(t, st, input);
    var e := Emitter(t);
    var bank: Filter := st.bank;
    var whole := PhaseClock.Run<Filter>(st.phase, bank, input, 0, ShiftIn, e);
    var cur := st.phase;
    var s := 0;
    out := [];
    while true
      invariant s < |input| && cur.dT > 0.0 && cur.T >= 0.0
      invariant var r := PhaseClock.Run<Filter>(cur, bank, input, s, ShiftIn, e);
        whole == PhaseClock.Outcome(r.phase, r.hist, out + r.out)
      invariant forall y <- out :: InRange(t, y)
      decreases |input| - s, PhaseClock.Budget(cur)
    {
      if PhaseClock.NeedsInput(cur) {
        PhaseClock.RunConsumes<Filter>(cur, bank, input, s, ShiftIn, e);
        cur := PhaseClock.Consume(cur);
        bank := DelayLine(bank, input[s]);
        s := s + 1;
        if s >= |input| {
          next := Fir(bank, PhaseClock.Carry(cur));
          return;
        }
      } else {
        var shift := Offset(bank.os, PhaseClock.Frac(cur));
        var fout := FilterSample(bank, shift);
        var y := Saturate(t, fout);
        assert y == e(bank, PhaseClock.Frac(cur));
        PhaseClock.RunEmits<Filter>(cur, bank, input, s, ShiftIn, e);
        PhaseClock.EmitShrinksBudget(cur);
        assert out + [y] + PhaseClock.Run<Filter>(PhaseClock.Advance(cur), bank, input, s, ShiftIn, e).out
          == out + ([y] + PhaseClock.Run<Filter>(PhaseClock.Advance(cur), bank, input, s, ShiftIn, e).out);
        out := out + [y];
        cur := PhaseClock.Advance(cur);
      }
    }
  }

  /** A call keeps the bank's shape. */
  lemma {:induction false} RunKeepsShape(p: PhaseClock.Phase, f: Filter, input: seq<int>, s: nat,
                                         e: (Filter, PhaseClock.Unit) -> int)
    requires s < |input| && p.dT > 0.0 && p.T >= 0.0
    ensures var h := PhaseClock.Run<Filter>(p, f, input, s, ShiftIn, e).hist;
      h.os == f.os && h.table == f.table && |h.line| == |f.line|
    decreases |input| - s, PhaseClock.Budget(p)
  {
    if PhaseClock.NeedsInput(p) {
      if s + 1 < |input| {
        RunKeepsShape(PhaseClock.Consume(p), ShiftIn(f, input[s]), input, s + 1, e);
      }
    } else {
      PhaseClock.EmitShrinksBudget(p);
      RunKeepsShape(PhaseClock.Advance(p), f, input, s, e);
    }
  }

  /** `process` keeps a consistent converter consistent. */
  lemma RunKeepsValid(t: ElemRange, st: Fir, input: seq<int>)
    requires Valid(st) && |input| > 0
    ensures var r := PhaseClock.Run<Filter>(st.phase, st.bank, input, 0, ShiftIn, Emitter(t));
      Valid(Fir(r.hist, r.phase))
  {
    var bank: Filter := st.bank;
    RunKeepsShape(st.phase, bank, input, 0, Emitter(t));
    PhaseClock.RunKeepsValid<Filter>(st.phase, bank, input, 0, ShiftIn, Emitter(t));
  }

  // ---- The source as written ----

  /** The parameter test of `init` as written (line 292): only both factors
      odd is rejected; the rates are never examined. */
  function AcceptsAsWritten(os: int, mul: int): (r: bool)
    ensures r <==> (os * mul) % 2 == 0
  {
    ProductParity(os, mul);
    !(os % 2 == 1 && mul % 2 == 1)
  }

  /** The delay-line size `init` allocates (line 325). */
  function DelayLineSizeAsWritten(mul: Byte): nat
  {
    mul
  }

  /** The table size `init` requests (line 299), `(os * mul) >> 1`, an
      arithmetic shift that rounds toward minus infinity. */
  function TableSizeAsWritten(os: int, mul: Byte): (r: int)
    ensures 2 * r <= os * mul < 2 * r + 2
    ensures r < 0 <==> os * mul < 0
    ensures (os * mul) % 2 == 0 ==> 2 * r == os * mul
  {
    (os * mul) / 2
  }

  /** mul = 0 passes the test whatever os is, and then the first consumed
      sample is written to m_buff[0] of an empty line (line 350). */
  lemma EmptyDelayLineAsWritten(os: int)
    ensures AcceptsAsWritten(os, 0)
    ensures DelayLineSizeAsWritten(0) == 0
  {
  }

  /** A negative even oversampling passes the test and asks for a negative
      table size, which converts to a huge unsigned size. */
  lemma NegativeOversamplingAsWritten()
    ensures AcceptsAsWritten(-2, 1) && TableSizeAsWritten(-2, 1) < 0
  {
  }

  /** The clock after n emissions. */
  function AdvanceN(p: PhaseClock.Phase, n: nat): PhaseClock.Phase
  {
    if n == 0 then p else PhaseClock.Advance(AdvanceN(p, n - 1))
  }

  /** Since the rates are never examined, a zero or negative step (for
      instance inRate = 0, or rates of opposite sign) is accepted. From a
      state that owes an output, such a clock never catches up with the
      consumed input, so `process` emits forever. */
  lemma {:induction false} StallAsWritten(p: PhaseClock.Phase, n: nat)
    requires p.dT <= 0.0 && !PhaseClock.NeedsInput(p)
    ensures !PhaseClock.NeedsInput(AdvanceN(p, n))
    ensures AdvanceN(p, n).T <= p.T && AdvanceN(p, n).inT == p.inT
    ensures AdvanceN(p, n).dT == p.dT
  {
    if n > 0 {
      StallAsWritten(p, n - 1);
    }
  }

  /** The state `init` builds for a zero input rate owes an output after its
      first sample: the stall is reachable, while Init rejects that rate. */
  lemma ZeroRateStallsAsWritten(prev: Fir, outRate: int, os: int, mul: Byte, design: int -> real)
    requires outRate != 0
    ensures var p := PhaseClock.Consume(PhaseClock.Phase(0 as real / outRate as real, 0.0, 0));
      p.dT == 0.0 && !PhaseClock.NeedsInput(p)
    ensures !Init(prev, 0, outRate, os, mul, design).0
  {
  }
}
