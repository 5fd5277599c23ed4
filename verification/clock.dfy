/** The SPI clock-divider register and the search that fills it
    (esp32/esp32spi.c, lines 1034-1110). */
module SpiClock {

  /** CPU_CLK_FREQ: a board constant, left symbolic.  At least 2^19, so that the slowest divider still
      gives a positive frequency; below 2^31, so that it is a positive int32_t. */
  type CpuClock = c: int | 0x8_0000 <= c < 0x8000_0000 witness 80_000_000

  type uint32 = x: int | 0 <= x < 0x1_0000_0000

  /** A C conversion to int32_t: reduce modulo 2^32, then read as two's complement. */
  function AsInt32(x: int): int {
    var r := x % 0x1_0000_0000;
    if r < 0x8000_0000 then r else r - 0x1_0000_0000
  }

  // ---------- the register ----------

  /** The bit fields of spiClk_t, least significant first. */
  datatype SpiClk = SpiClk(regL: nat, regH: nat, regN: nat, regPre: nat, regEQU: nat)
  {
    predicate Valid() {
      regL < 0x40 && regH < 0x40 && regN < 0x40 && regPre < 0x2000 && regEQU < 2
    }

    function Value(): uint32
      requires Valid()
    {
      regL + 0x40 * regH + 0x1000 * regN + 0x4_0000 * regPre + 0x8000_0000 * regEQU
    }
  }

  /** The fields of a register value: the fields are peeled off from the low end. */
  function Fields(v: uint32): (reg: SpiClk)
    ensures reg.Valid() && reg.Value() == v
  {
    var h := v / 0x40;
    var n := h / 0x40;
    var pre := n / 0x40;
    SpiClk(v % 0x40, h % 0x40, n % 0x40, pre % 0x2000, pre / 0x2000)
  }

  lemma FieldsOfValue(reg: SpiClk)
    requires reg.Valid()
    ensures Fields(reg.Value()) == reg
  {
    var got := Fields(reg.Value());
    assert got.Value() == reg.Value();
  }

  /** The frequency of prescaler pre+1 and divider n+1: the ClkRegToFreq macro. */
  function Freq(clk: CpuClock, n: nat, pre: nat): (f: nat)
    ensures f <= clk
  {
    DivisorPositive(n, pre);
    DivAntitone(clk, 1, (pre + 1) * (n + 1));
    clk / ((pre + 1) * (n + 1))
  }

  lemma DivisorPositive(n: nat, pre: nat)
    ensures 0 < (pre + 1) * (n + 1)
  {
    assert (pre + 1) * (n + 1) == pre * n + pre + n + 1;
  }

  function ClockDivToFrequency(clk: CpuClock, clockDiv: uint32): (f: uint32)
    ensures f <= clk
  {
    var reg := Fields(clockDiv);
    Freq(clk, reg.regN, reg.regPre)
  }

  const SPI_CLK_EQU_SYSCLK: uint32 := 0x8000_0000
  const MIN_FREQ_REG: uint32 := 0x7FFF_F000

  function MinFreq(clk: CpuClock): uint32 {
    ClockDivToFrequency(clk, MIN_FREQ_REG)
  }

  lemma MinFreqValue(clk: CpuClock)
    ensures MinFreq(clk) == clk / 0x8_0000 == Freq(clk, 63, 0x1FFF)
    ensures 1 <= MinFreq(clk) < clk
  {
    var reg := SpiClk(0, 0, 63, 0x1FFF, 0);
    assert reg.Value() == MIN_FREQ_REG;
    FieldsOfValue(reg);
  }

  // ---------- division facts ----------

  lemma DivBounds(a: nat, b: int)
    requires 0 < b
    ensures b * (a / b) <= a < b * (a / b) + b
  {
  }

  /** Floor division is a Galois connection: k <= a/b exactly when k*b <= a. */
  lemma DivAtLeast(a: nat, b: int, k: int)
    requires 0 < b
    ensures k <= a / b <==> k * b <= a
  {
    DivBounds(a, b);
    if k <= a / b {
      MulMono(k, a / b, b);
    } else {
      MulMono(a / b + 1, k, b);
    }
  }

  lemma MulMono(x: int, y: int, b: int)
    requires x <= y && 0 <= b
    ensures x * b <= y * b
  {
  }

  lemma DivAntitone(a: nat, b: int, c: int)
    requires 0 < b <= c
    ensures a / c <= a / b
  {
    DivAtLeast(a, c, a / c);
    MulMono(b, c, a / c);
    DivAtLeast(a, b, a / c);
  }

  lemma MulAssoc(x: int, y: int, z: int)
    ensures x * (y * z) == x * y * z
  {
  }

  lemma DivTwice(a: nat, b: int, c: int)
    requires 0 < b && 0 < c
    ensures 0 < c * b && a / b / c == a / (c * b)
  {
    MulMono(1, c, b);
    DivTwiceAtLeast(a, b, c, a / b / c);
    DivTwiceAtLeast(a, b, c, a / (c * b));
  }

  lemma DivTwiceAtLeast(a: nat, b: int, c: int, k: int)
    requires 0 < b && 0 < c && 0 < c * b
    ensures k <= a / b / c <==> k <= a / (c * b)
  {
    var q, cb := a / b, c * b;
    DivBounds(a, b);
    assert 0 <= q;
    DivAtLeast(q, c, k);
    DivAtLeast(a, b, k * c);
    DivAtLeast(a, cb, k);
    MulAssoc(k, c, b);
  }

  // ---------- the search ----------

  const CANDIDATES: nat := 252

  /** A frequency the search handles itself: neither early return applies.  (MinFreq is positive.) */
  predicate InRange(clk: CpuClock, freq: uint32) {
    0 < freq && MinFreq(clk) <= freq < clk
  }

  function ClampPre(calPre: int): nat {
    if calPre > 0x1FFF then 0x1FFF else if calPre <= 0 then 0 else calPre
  }

  /** The register tried for divider n with variation v. */
  function Candidate(clk: CpuClock, freq: uint32, n: nat, v: int): SpiClk
    requires 0 < freq
  {
    SpiClk((n + 1) / 2, 0, n, ClampPre(AsInt32(clk / (n + 1) / freq - 1 + v)), 0)
  }

  /** The k-th register the search tries: four variations, -1 to 2, for each n from 1 to 63. */
  function Tried(clk: CpuClock, freq: uint32, k: nat): SpiClk
    requires 0 < freq
  {
    Candidate(clk, freq, 1 + k / 4, k % 4 - 1)
  }

  function TriedFreq(clk: CpuClock, freq: uint32, k: nat): nat
    requires 0 < freq
  {
    Freq(clk, Tried(clk, freq, k).regN, Tried(clk, freq, k).regPre)
  }

  /** The frequencies the search computes, in order, if no exact hit stops it. */
  ghost function TriedFreqs(clk: CpuClock, freq: uint32): (fs: seq<nat>)
    requires 0 < freq
    ensures |fs| == CANDIDATES
  {
    seq(CANDIDATES, k requires 0 <= k < CANDIDATES => TriedFreq(clk, freq, k))
  }

  /** Position k holds the first of the values that come closest to freq from below. */
  ghost predicate IsBest(fs: seq<nat>, freq: nat, k: nat) {
    && k < |fs|
    && fs[k] <= freq
    && forall j :: 0 <= j < |fs| && fs[j] <= freq ==> fs[j] <= fs[k] && (j < k ==> fs[j] < fs[k])
  }

  lemma BestIsUnique(fs: seq<nat>, freq: nat, k: nat, k': nat)
    requires IsBest(fs, freq, k) && IsBest(fs, freq, k')
    ensures k == k'
  {
    assert fs[k] == fs[k'];
  }

  lemma {:induction false} BestExists(fs: seq<nat>, freq: nat, some: nat) returns (k: nat)
    requires some < |fs| && fs[some] <= freq
    ensures IsBest(fs, freq, k)
  {
    var last := |fs| - 1;
    var rest := fs[..last];
    if j: nat :| j < last && fs[j] <= freq {
      assert rest[j] == fs[j];
      k := BestExists(rest, freq, j);
      assert forall i :: 0 <= i < last ==> fs[i] == rest[i];
      if fs[k] < fs[last] <= freq {
        k := last;
      }
    } else {
      k := last;
    }
  }

  // ---------- what the four candidates per n cover ----------

  /** A quotient is below 2^30, so the values around it fit an int32_t. */
  lemma QuotientSmall(clk: CpuClock, freq: uint32, n: nat)
    requires 0 < freq && 1 <= n
    ensures 0 <= clk / (n + 1) / freq < 0x4000_0000
  {
    DivAntitone(clk, 2, n + 1);
    var d := clk / (n + 1);
    DivAntitone(d, 1, freq);
    DivAtLeast(d, freq, 0);
  }

  /** One candidate, in terms of the quotient q = floor(floor(clk/(n+1)) / freq).  For q = 0 the unsigned q - 1
      wraps, and the conversion to int32_t undoes it: the int32_t value is always q - 1 + v. */
  lemma CandidatePre(clk: CpuClock, freq: uint32, n: nat, v: int)
    requires 0 < freq && 1 <= n <= 63 && -1 <= v <= 2
    ensures Candidate(clk, freq, n, v).regPre == ClampPre(clk / (n + 1) / freq - 1 + v)
    ensures Candidate(clk, freq, n, v).Valid()
  {
    QuotientSmall(clk, freq, n);
    var q := clk / (n + 1) / freq;
    assert AsInt32(q - 1 + v) == q - 1 + v;
  }

  lemma FreqAsTwoDivisions(clk: CpuClock, n: nat, pre: nat)
    ensures Freq(clk, n, pre) == clk / (n + 1) / (pre + 1)
  {
    DivTwice(clk, n + 1, pre + 1);
  }

  /** Of the prescalers that do not overshoot d/freq, q is the closest of those from q on, and every
      smaller one is an exact hit, as is every other prescaler between it and q-1. */
  lemma PrescalerChoice(d: nat, freq: int, q: int, pre: nat, chosen: nat)
    requires 0 < freq && q == d / freq && d / (pre + 1) <= freq
    requires if q <= pre then chosen == q else pre <= chosen <= q - 1
    ensures d / (pre + 1) <= d / (chosen + 1) <= freq
  {
    if q <= pre {
      DivAntitone(d, q + 1, pre + 1);
      DivBounds(d, freq);
      assert (freq + 1) * (q + 1) == freq * q + freq + q + 1;
      DivAtLeast(d, q + 1, freq + 1);
    } else {
      DivAntitone(d, pre + 1, chosen + 1);
      DivAntitone(d, chosen + 1, q);
      DivAtLeast(d, freq, q);
      DivAtLeast(d, q, freq);
    }
  }

  /** For one n, the candidates cover every prescaler: the one for q-1 is an exact hit whenever some
      prescaler up to q-1 does not overshoot, and the one for q is the best of the rest. */
  lemma CandidatesCover(clk: CpuClock, freq: uint32, n: nat, pre: nat) returns (v: int)
    requires 0 < freq && 1 <= n <= 63 && pre <= 0x1FFF
    requires Freq(clk, n, pre) <= freq
    ensures 0 <= v <= 1
    ensures Freq(clk, n, pre) <= Freq(clk, n, Candidate(clk, freq, n, v).regPre) <= freq
  {
    var q := clk / (n + 1) / freq;
    v := if q <= pre then 1 else 0;
    QuotientSmall(clk, freq, n);
    CandidatePre(clk, freq, n, v);
    var chosen := ClampPre(q - 1 + v);
    FreqAsTwoDivisions(clk, n, pre);
    FreqAsTwoDivisions(clk, n, chosen);
    PrescalerChoice(clk / (n + 1), freq, q, pre, chosen);
  }

  lemma TriedAt(clk: CpuClock, freq: uint32, n: nat, v: int) returns (k: nat)
    requires 0 < freq && 1 <= n <= 63 && -1 <= v <= 2
    ensures k < CANDIDATES && Tried(clk, freq, k) == Candidate(clk, freq, n, v)
  {
    k := 4 * (n - 1) + (v + 1);
    assert k / 4 == n - 1 && k % 4 == v + 1;
  }

  lemma TriedIsValid(clk: CpuClock, freq: uint32, k: nat)
    requires 0 < freq && k < CANDIDATES
    ensures Tried(clk, freq, k).Valid() && 1 <= Tried(clk, freq, k).regN
    ensures 1 <= TriedFreq(clk, freq, k)
  {
    CandidatePre(clk, freq, 1 + k / 4, k % 4 - 1);
    var reg := Tried(clk, freq, k);
    FreqAsTwoDivisions(clk, reg.regN, reg.regPre);
    DivAntitone(clk, reg.regN + 1, 64);
    DivAntitone(clk / (reg.regN + 1), reg.regPre + 1, 0x2000);
    DivAtLeast(clk / (reg.regN + 1), 0x2000, 1);
  }

  /** The search never leaves bestReg at its initial 0: the slowest setting never overshoots. */
  lemma SearchSucceeds(clk: CpuClock, freq: uint32)
    requires InRange(clk, freq)
    ensures exists k: nat :: IsBest(TriedFreqs(clk, freq), freq, k)
  {
    MinFreqValue(clk);
    var v := CandidatesCover(clk, freq, 63, 0x1FFF);
    var some := TriedAt(clk, freq, 63, v);
    var k := BestExists(TriedFreqs(clk, freq), freq, some);
  }

  // ---------- the register chosen, as a function ----------

  /** The index of the candidate the search keeps. */
  ghost function BestIndex(clk: CpuClock, freq: uint32): (k: nat)
    requires InRange(clk, freq)
    ensures IsBest(TriedFreqs(clk, freq), freq, k)
  {
    SearchSucceeds(clk, freq);
    var k: nat :| IsBest(TriedFreqs(clk, freq), freq, k);
    k
  }

  /** What spiFrequencyToClockDiv returns. */
  ghost function FrequencyToClockDiv(clk: CpuClock, freq: uint32): uint32 {
    if clk <= freq then
      SPI_CLK_EQU_SYSCLK
    else if freq < MinFreq(clk) then
      MIN_FREQ_REG
    else
      MinFreqValue(clk);
      var k := BestIndex(clk, freq);
      TriedIsValid(clk, freq, k);
      Tried(clk, freq, k).Value()
  }

  /** The frequency the hardware runs at after asking for freq. */
  ghost function Achieved(clk: CpuClock, freq: uint32): (f: uint32)
    ensures f <= clk
  {
    ClockDivToFrequency(clk, FrequencyToClockDiv(clk, freq))
  }

  // ---------- the search loop ----------

  /** The first m values of fs were tried without an exact hit; best is the position kept, or -1. */
  ghost predicate Searched(fs: seq<nat>, freq: nat, m: nat, best: int) {
    && m <= |fs|
    && -1 <= best < m
    && (forall j :: 0 <= j < m ==> fs[j] != freq)
    && (best == -1 ==> forall j :: 0 <= j < m ==> freq < fs[j])
    && (0 <= best ==> fs[best] < freq && BestBelow(fs, freq, m, best))
  }

  ghost predicate BestBelow(fs: seq<nat>, freq: nat, m: nat, best: nat)
    requires best < m <= |fs|
  {
    forall j :: 0 <= j < m && fs[j] <= freq ==> fs[j] <= fs[best] && (j < best ==> fs[j] < fs[best])
  }

  ghost function ValueAt(fs: seq<nat>, best: int): nat {
    if 0 <= best < |fs| then fs[best] else 0
  }

  lemma SearchedStep(fs: seq<nat>, freq: nat, m: nat, best: int)
    requires Searched(fs, freq, m, best) && m < |fs| && fs[m] != freq && 0 < fs[m]
    ensures Searched(fs, freq, m + 1, if ValueAt(fs, best) < fs[m] < freq then m else best)
  {
  }

  lemma NothingSearched(fs: seq<nat>, freq: nat)
    ensures Searched(fs, freq, 0, -1) && ValueAt(fs, -1) == 0
  {
  }

  lemma SearchedBelow(fs: seq<nat>, freq: nat, m: nat, best: int)
    requires Searched(fs, freq, m, best)
    ensures ValueAt(fs, best) <= freq
  {
  }

  lemma ValueThere(fs: seq<nat>, m: nat)
    requires m < |fs|
    ensures ValueAt(fs, m) == fs[m]
  {
  }

  lemma SmallIsItself(freq: uint32)
    requires freq < 0x8000_0000
    ensures AsInt32(freq) == freq
  {
  }

  lemma SearchedAll(fs: seq<nat>, freq: nat, best: int)
    requires Searched(fs, freq, |fs|, best) && exists k: nat :: IsBest(fs, freq, k)
    ensures 0 <= best && IsBest(fs, freq, best)
  {
  }

  lemma ExactHitIsBest(fs: seq<nat>, freq: nat, m: nat, best: int)
    requires m < |fs| && fs[m] == freq && Searched(fs, freq, m, best)
    ensures IsBest(fs, freq, m)
  {
  }

  function Abs(x: int): nat {
    if x < 0 then -x else x
  }

  /** The comparison abs(freq - calFreq) < abs(freq - bestFreq), done on unsigned and int values. */
  lemma CloserMeansGreater(freq: uint32, calFreq: nat, bestFreq: nat)
    requires freq < 0x8000_0000 && calFreq < freq && bestFreq <= freq
    ensures Abs(AsInt32(freq - calFreq)) < Abs(AsInt32(freq - bestFreq)) <==> bestFreq < calFreq
  {
  }

  lemma FirstTried(clk: CpuClock, freq: uint32, n: nat, v: int)
    requires 0 < freq && 1 <= n <= 63 && -1 <= v <= 2
    ensures var m := 4 * (n - 1) + v + 1;
            && m < CANDIDATES
            && Tried(clk, freq, m) == Candidate(clk, freq, n, v)
            && Tried(clk, freq, m).Valid()
            && TriedFreqs(clk, freq)[m] == Freq(clk, n, Candidate(clk, freq, n, v).regPre)
            && 1 <= TriedFreqs(clk, freq)[m]
  {
    var m := TriedAt(clk, freq, n, v);
    TriedIsValid(clk, freq, m);
  }

  /** spiFrequencyToClockDiv: the two early returns, then the nested search. */
  method SpiFrequencyToClockDiv(clk: CpuClock, freq: uint32) returns (clockDiv: uint32)
    ensures clockDiv == FrequencyToClockDiv(clk, freq)
  {
    if freq >= clk {
      return SPI_CLK_EQU_SYSCLK;
    }
    var minFreqReg := MIN_FREQ_REG;
    var minFreq := ClockDivToFrequency(clk, minFreqReg);
    MinFreqValue(clk);
    if freq < minFreq {
      return minFreqReg;
    }
    SearchSucceeds(clk, freq);
    ghost var regs := seq(CANDIDATES, k requires 0 <= k < CANDIDATES => Tried(clk, freq, k));
    var bestReg := Search(clk, freq, regs, TriedFreqs(clk, freq));
    ghost var k: nat :| k < CANDIDATES && IsBest(TriedFreqs(clk, freq), freq, k) && bestReg == regs[k];
    BestIsUnique(TriedFreqs(clk, freq), freq, k, BestIndex(clk, freq));
    TriedIsValid(clk, freq, k);
    return bestReg.Value();
  }

  /** regs and fs list what the search tries, and the frequencies of those registers. */
  ghost predicate IsTrial(clk: CpuClock, freq: uint32, regs: seq<SpiClk>, fs: seq<nat>) {
    && 0 < freq
    && |regs| == |fs| == CANDIDATES
    && (forall k {:trigger Tried(clk, freq, k)} :: 0 <= k < CANDIDATES ==> regs[k] == Tried(clk, freq, k))
    && (forall k {:trigger TriedFreq(clk, freq, k)} :: 0 <= k < CANDIDATES ==> fs[k] == TriedFreq(clk, freq, k))
  }

  /** One pass of the inner loop body, up to the comparison: fill in reg and compute its frequency. */
  method TryCandidate(clk: CpuClock, freq: uint32, reg: SpiClk, calPreVari: int,
                      ghost regs: seq<SpiClk>, ghost fs: seq<nat>)
    returns (tried: SpiClk, calFreq: nat)
    requires IsTrial(clk, freq, regs, fs)
    requires 1 <= reg.regN <= 63 && -1 <= calPreVari <= 2 && reg.regH == 0 && reg.regEQU == 0
    ensures tried.regN == reg.regN && tried.regH == 0 && tried.regEQU == 0
    ensures 4 * (reg.regN - 1) + calPreVari + 1 < CANDIDATES
    ensures tried == regs[4 * (reg.regN - 1) + calPreVari + 1]
    ensures 1 <= calFreq == fs[4 * (reg.regN - 1) + calPreVari + 1]
  {
    tried := reg;
    var calPre := AsInt32(clk / (tried.regN + 1) / freq - 1 + calPreVari);
    if calPre > 0x1FFF {
      tried := tried.(regPre := 0x1FFF);
    } else if calPre <= 0 {
      tried := tried.(regPre := 0);
    } else {
      tried := tried.(regPre := calPre);
    }
    tried := tried.(regL := (tried.regN + 1) / 2);
    calFreq := Freq(clk, tried.regN, tried.regPre);
    FirstTried(clk, freq, reg.regN, calPreVari);
  }

  /** The nested search of spiFrequencyToClockDiv. */
  method Search(clk: CpuClock, freq: uint32, ghost regs: seq<SpiClk>, ghost fs: seq<nat>)
    returns (bestReg: SpiClk)
    requires freq < clk && IsTrial(clk, freq, regs, fs)
    requires exists k: nat :: IsBest(fs, freq, k)
    ensures exists k: nat :: k < CANDIDATES && IsBest(fs, freq, k) && bestReg == regs[k]
  {
    hide AsInt32, Searched, IsBest, ValueAt, Tried, TriedFreq;
    SmallIsItself(freq);
    NothingSearched(fs, freq);
    var calN := 1;
    bestReg := SpiClk(0, 0, 0, 0, 0);
    var bestFreq := 0;
    ghost var best, done := -1, 0;

    while calN <= 0x3F
      invariant 1 <= calN <= 0x40 && done == 4 * (calN - 1) && -1 <= best < CANDIDATES
      invariant Searched(fs, freq, done, best)
      invariant 0 <= best ==> bestReg == regs[best]
      invariant bestFreq == ValueAt(fs, best)
    {
      var reg := SpiClk(0, 0, calN, 0, 0);
      var calFreq := 0;
      var calPreVari := -2;

      while calPreVari <= 1
        invariant -2 <= calPreVari <= 2 && done == 4 * (calN - 1) + calPreVari + 2 && -1 <= best < CANDIDATES
        invariant reg.regN == calN && reg.regH == 0 && reg.regEQU == 0
        invariant Searched(fs, freq, done, best)
        invariant 0 <= best ==> bestReg == regs[best]
        invariant bestFreq == ValueAt(fs, best)
        invariant calFreq != freq
      {
        calPreVari := calPreVari + 1;
        reg, calFreq := TryCandidate(clk, freq, reg, calPreVari, regs, fs);
        if calFreq == AsInt32(freq) {
          ExactHitIsBest(fs, freq, done, best);
          bestReg := reg;
          best := done;
          break;
        }
        SearchedStep(fs, freq, done, best);
        SearchedBelow(fs, freq, done, best);
        if calFreq < AsInt32(freq) {
          CloserMeansGreater(freq, calFreq, bestFreq);
          if Abs(AsInt32(freq - calFreq)) < Abs(AsInt32(freq - bestFreq)) {
            ValueThere(fs, done);
            bestFreq := calFreq;
            bestReg := reg;
            best := done;
          }
        }
        done := done + 1;
      }
      if calFreq == AsInt32(freq) {
        return;
      }
      calN := calN + 1;
    }
    SearchedAll(fs, freq, best);
  }
}
