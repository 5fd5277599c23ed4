/** What the divider search achieves (esp32/esp32spi.c, lines 1050-1110). */
module SpiClockProperties {
  import opened SpiClock

  /** Some divider the search ranges over, n in 1..63 and a 13-bit prescaler, gives exactly f. */
  ghost predicate Reachable(clk: CpuClock, f: nat) {
    exists n: nat, pre: nat :: 1 <= n <= 63 && pre <= 0x1FFF && Freq(clk, n, pre) == f
  }

  /** f is the largest reachable frequency that does not exceed freq. */
  ghost predicate IsClosestBelow(clk: CpuClock, freq: nat, f: nat) {
    && Reachable(clk, f)
    && f <= freq
    && forall n: nat, pre: nat :: 1 <= n <= 63 && pre <= 0x1FFF && Freq(clk, n, pre) <= freq ==> Freq(clk, n, pre) <= f
  }

  // ---------- the search against brute force ----------

  /** Inside the range the register is one the search tried, and its frequency the best tried. */
  lemma AchievedIsTried(clk: CpuClock, freq: uint32) returns (k: nat)
    requires InRange(clk, freq)
    ensures k == BestIndex(clk, freq) < CANDIDATES
    ensures Achieved(clk, freq) == TriedFreqs(clk, freq)[k] == TriedFreq(clk, freq, k)
    ensures Tried(clk, freq, k).Valid() && FrequencyToClockDiv(clk, freq) == Tried(clk, freq, k).Value()
  {
    k := BestIndex(clk, freq);
    TriedIsValid(clk, freq, k);
    FieldsOfValue(Tried(clk, freq, k));
  }

  /** 252 candidates do as well as all 63 * 8192 dividers. */
  lemma SearchRefinesBruteForce(clk: CpuClock, freq: uint32)
    requires InRange(clk, freq)
    ensures IsClosestBelow(clk, freq, Achieved(clk, freq))
  {
    var k := AchievedIsTried(clk, freq);
    var best := Achieved(clk, freq);
    var reg := Tried(clk, freq, k);
    TriedIsValid(clk, freq, k);
    assert Freq(clk, reg.regN, reg.regPre) == best;
    forall n: nat, pre: nat | 1 <= n <= 63 && pre <= 0x1FFF && Freq(clk, n, pre) <= freq
      ensures Freq(clk, n, pre) <= best
    {
      BestDominates(clk, freq, n, pre);
    }
  }

  lemma AchievedIsReached(clk: CpuClock, freq: uint32) returns (n: nat, pre: nat)
    requires InRange(clk, freq)
    ensures 1 <= n <= 63 && pre <= 0x1FFF && Freq(clk, n, pre) == Achieved(clk, freq) <= freq
  {
    hide Achieved, Freq, MinFreq;
    SearchRefinesBruteForce(clk, freq);
    n, pre :| 1 <= n <= 63 && pre <= 0x1FFF && Freq(clk, n, pre) == Achieved(clk, freq);
  }

  lemma BestDominates(clk: CpuClock, freq: uint32, n: nat, pre: nat)
    requires InRange(clk, freq)
    requires 1 <= n <= 63 && pre <= 0x1FFF && Freq(clk, n, pre) <= freq
    ensures Freq(clk, n, pre) <= TriedFreqs(clk, freq)[BestIndex(clk, freq)]
  {
    var k := BestIndex(clk, freq);
    var v := CandidatesCover(clk, freq, n, pre);
    FirstTried(clk, freq, n, v);
    assert TriedFreqs(clk, freq)[4 * (n - 1) + v + 1] <= TriedFreqs(clk, freq)[k];
  }

  /** Every divider the search ranges over is at least as fast as the low-end constant. */
  lemma AtLeastMin(clk: CpuClock, n: nat, pre: nat)
    requires 1 <= n <= 63 && pre <= 0x1FFF
    ensures 1 <= MinFreq(clk) <= Freq(clk, n, pre) < clk
  {
    MinFreqValue(clk);
    FreqAsTwoDivisions(clk, 63, 0x1FFF);
    FreqAsTwoDivisions(clk, n, pre);
    DivAntitone(clk, n + 1, 64);
    DivideMore(clk / 64, clk / (n + 1), pre + 1, 0x2000);
    DivAntitone(clk, 2, n + 1);
    DivAntitone(clk / (n + 1), 1, pre + 1);
  }

  lemma DivideMore(a: nat, b: nat, c: int, d: int)
    requires a <= b && 0 < c <= d
    ensures a / d <= b / c
  {
    DivAntitone(a, c, d);
    DivBounds(a, c);
    DivAtLeast(b, c, a / c);
  }

  // ---------- bounds ----------

  /** The bus is faster than asked exactly when asked for less than the slowest divider gives. */
  lemma NeverFasterThanAsked(clk: CpuClock, freq: uint32)
    ensures Achieved(clk, freq) <= freq <==> MinFreq(clk) <= freq
  {
    MinFreqValue(clk);
    EarlyReturns(clk, freq);
    if InRange(clk, freq) {
      SearchRefinesBruteForce(clk, freq);
    }
  }

  lemma EarlyReturns(clk: CpuClock, freq: uint32)
    ensures clk <= freq ==> Achieved(clk, freq) == clk && FrequencyToClockDiv(clk, freq) == SPI_CLK_EQU_SYSCLK
    ensures freq < MinFreq(clk) ==>
              Achieved(clk, freq) == MinFreq(clk) && FrequencyToClockDiv(clk, freq) == MIN_FREQ_REG
  {
    hide BestIndex, Tried, Fields, Freq, ClockDivToFrequency;
    MinFreqValue(clk);
    Undivided(clk);
  }

  /** The register of the early return for fast requests leaves the clock as it is. */
  lemma Undivided(clk: CpuClock)
    ensures ClockDivToFrequency(clk, SPI_CLK_EQU_SYSCLK) == clk
  {
    var reg := SpiClk(0, 0, 0, 0, 1);
    FieldsOfValue(reg);
    assert reg.Value() == SPI_CLK_EQU_SYSCLK;
  }

  /** Undershoot by the first prescaler past the quotient loses at most half. */
  lemma HalfLost(d: nat, freq: nat)
    requires 0 < freq && freq <= d
    ensures freq / 2 <= d / (d / freq + 1)
  {
    var q := d / freq;
    DivBounds(d, freq);
    DivAtLeast(d, freq, 1);
    var h := freq / 2;
    assert h * (q + 1) == h * q + h;
    MulMono(2 * h, freq, q);
    assert 2 * h * q == h * q + h * q;
    MulMono(1, q, h);
    DivAtLeast(d, q + 1, h);
  }

  /** The register chosen is never the initial bestReg, which would run the bus at full speed, and
      between the early returns the bus runs at no less than half of what was asked. */
  lemma NeverSlowerThanHalf(clk: CpuClock, freq: uint32)
    requires InRange(clk, freq)
    ensures freq / 2 <= Achieved(clk, freq) <= freq
    ensures 1 <= Fields(FrequencyToClockDiv(clk, freq)).regN
  {
    SearchRefinesBruteForce(clk, freq);
    var k := AchievedIsTried(clk, freq);
    TriedIsValid(clk, freq, k);
    FieldsOfValue(Tried(clk, freq, k));
    var d := clk / 64;
    if freq <= d {
      SlowDivider(clk, freq);
    } else {
      FastDivider(clk, freq);
    }
  }

  lemma SlowDivider(clk: CpuClock, freq: uint32)
    requires InRange(clk, freq) && freq <= clk / 64
    ensures exists pre: nat :: pre <= 0x1FFF && freq / 2 <= Freq(clk, 63, pre) <= freq
  {
    hide Freq, MinFreq;
    var d := clk / 64;
    var q := d / freq;
    if q <= 0x1FFF {
      FreqAsTwoDivisions(clk, 63, q);
      HalfLost(d, freq);
      DivBounds(d, freq);
      PrescalerChoiceAtQuotient(d, freq, q);
    } else {
      MinFreqValue(clk);
      FreqAsTwoDivisions(clk, 63, 0x1FFF);
      DivAtLeast(d, freq, 0x2000);
      DivAtLeast(d, 0x2000, freq);
      assert Freq(clk, 63, 0x1FFF) == freq;
    }
  }

  lemma PrescalerChoiceAtQuotient(d: nat, freq: int, q: nat)
    requires 0 < freq && q == d / freq
    ensures d / (q + 1) <= freq
  {
    DivBounds(d, freq);
    assert (freq + 1) * (q + 1) == freq * q + freq + q + 1;
    DivAtLeast(d, q + 1, freq + 1);
  }

  lemma FastDivider(clk: CpuClock, freq: uint32)
    requires InRange(clk, freq) && clk / 64 < freq
    ensures exists pre: nat :: pre <= 0x1FFF && freq / 2 <= Freq(clk, 1, pre) <= freq
  {
    hide Freq, MinFreq;
    var d := clk / 2;
    if freq <= d {
      var q := d / freq;
      DivBounds(d, freq);
      DivAtLeast(d, freq, 0x2000);
      FreqAsTwoDivisions(clk, 1, q);
      HalfLost(d, freq);
      PrescalerChoiceAtQuotient(d, freq, q);
      assert q <= 0x1FFF;
    } else {
      FreqAsTwoDivisions(clk, 1, 0);
      assert Freq(clk, 1, 0) == d;
    }
  }

  // ---------- monotone and idempotent ----------

  /** Asking for more never gives less: across the search and both early returns. */
  lemma AchievedIsMonotone(clk: CpuClock, freq: uint32, freq': uint32)
    requires freq <= freq'
    ensures Achieved(clk, freq) <= Achieved(clk, freq')
  {
    MinFreqValue(clk);
    EarlyReturns(clk, freq);
    EarlyReturns(clk, freq');
    if InRange(clk, freq) {
      SearchRefinesBruteForce(clk, freq);
    }
    if InRange(clk, freq') {
      SearchRefinesBruteForce(clk, freq');
      assert Freq(clk, 63, 0x1FFF) <= Achieved(clk, freq');
    }
  }

  /** The frequencies that are met exactly are the reachable ones and the CPU clock itself. */
  lemma MetExactly(clk: CpuClock, freq: uint32)
    ensures Achieved(clk, freq) == freq <==> freq == clk || Reachable(clk, freq)
  {
    MinFreqValue(clk);
    EarlyReturns(clk, freq);
    if Reachable(clk, freq) {
      var n: nat, pre: nat :| 1 <= n <= 63 && pre <= 0x1FFF && Freq(clk, n, pre) == freq;
      AtLeastMin(clk, n, pre);
    }
    if InRange(clk, freq) {
      SearchRefinesBruteForce(clk, freq);
    }
  }

  /** Asking for what one got changes nothing. */
  lemma AchievedIsIdempotent(clk: CpuClock, freq: uint32)
    ensures Achieved(clk, Achieved(clk, freq)) == Achieved(clk, freq)
  {
    MinFreqValue(clk);
    EarlyReturns(clk, freq);
    if InRange(clk, freq) {
      SearchRefinesBruteForce(clk, freq);
    } else if freq < MinFreq(clk) {
      assert Reachable(clk, MinFreq(clk));
    }
    MetExactly(clk, Achieved(clk, freq));
  }

  /** The registers of the search have a nonzero low-time field, unlike the low-end constant. */
  lemma SearchedRegL(clk: CpuClock, freq: uint32)
    requires InRange(clk, freq)
    ensures 1 <= Fields(FrequencyToClockDiv(clk, freq)).regL
  {
    hide FrequencyToClockDiv, Achieved, MinFreq, BestIndex;
    var k := AchievedIsTried(clk, freq);
    FieldsOfValue(Tried(clk, freq, k));
  }

  // ---------- which register values are fixed points ----------

  /** The search keeps the first divider n that can attain the frequency achieved. */
  lemma FirstDivider(clk: CpuClock, freq: uint32, n: nat, pre: nat)
    requires InRange(clk, freq) && 1 <= n <= 63 && pre <= 0x1FFF
    requires Freq(clk, n, pre) == TriedFreqs(clk, freq)[BestIndex(clk, freq)]
    ensures BestIndex(clk, freq) / 4 <= n - 1
  {
    hide Tried, Freq, TriedFreqs, MinFreq;
    var k := BestIndex(clk, freq);
    var v := CandidatesCover(clk, freq, n, pre);
    FirstTried(clk, freq, n, v);
    assert k <= 4 * (n - 1) + v + 1;
  }

  /** A prescaler below the quotient gives at least what was asked. */
  lemma BelowQuotient(d: nat, freq: int, pre: nat)
    requires 0 < freq && pre + 1 <= d / freq
    ensures freq <= d / (pre + 1)
  {
    DivAntitone(d, pre + 1, d / freq);
    DivAtLeast(d, freq, d / freq);
    DivAtLeast(d, d / freq, freq);
  }

  /** The clock after the divider, and the i-th prescaler and frequency tried for it. */
  function Base(clk: CpuClock, n: nat): nat {
    clk / (n + 1)
  }

  function Scaled(d: nat, pre: nat): nat {
    d / (pre + 1)
  }

  function Guess(d: nat, freq: int, i: nat): nat
    requires 0 < freq
  {
    ClampPre(d / freq + i - 2)
  }

  function GuessFreq(d: nat, freq: int, i: nat): nat
    requires 0 < freq
  {
    Scaled(d, Guess(d, freq, i))
  }

  /** Of the four tried for one divider, the i-th is the first to come as close. */
  ghost predicate FirstBest(d: nat, freq: int, i: nat) {
    && 0 < freq
    && i < 4
    && GuessFreq(d, freq, i) <= freq
    && forall j: nat :: j < i && GuessFreq(d, freq, j) <= freq ==> GuessFreq(d, freq, j) < GuessFreq(d, freq, i)
  }

  /** The candidate of position k, read as a divider and a prescaler. */
  lemma TriedParts(clk: CpuClock, freq: uint32, n: nat, i: nat)
    requires 0 < freq && 1 <= n <= 63 && i < 4
    ensures var k := 4 * (n - 1) + i;
            && k < CANDIDATES
            && Tried(clk, freq, k) == SpiClk((n + 1) / 2, 0, n, Guess(Base(clk, n), freq, i), 0)
            && TriedFreqs(clk, freq)[k] == GuessFreq(Base(clk, n), freq, i)
  {
    hide Freq, ClampPre;
    FirstTried(clk, freq, n, i - 1);
    CandidatePre(clk, freq, n, i - 1);
    FreqAsTwoDivisions(clk, n, Candidate(clk, freq, n, i - 1).regPre);
  }

  /** The divider and the variation of the candidate kept. */
  lemma KeptInRow(clk: CpuClock, freq: uint32) returns (n: nat, i: nat)
    requires InRange(clk, freq)
    ensures 1 <= n <= 63 && i < 4 && BestIndex(clk, freq) == 4 * (n - 1) + i
    ensures FirstBest(Base(clk, n), freq, i)
  {
    hide Freq, Tried, TriedFreqs, MinFreq, Guess, GuessFreq, Base;
    var k := BestIndex(clk, freq);
    n, i := 1 + k / 4, k % 4;
    assert k == 4 * (n - 1) + i;
    TriedParts(clk, freq, n, i);
    forall j: nat | j < i && GuessFreq(Base(clk, n), freq, j) <= freq
      ensures GuessFreq(Base(clk, n), freq, j) < GuessFreq(Base(clk, n), freq, i)
    {
      TriedParts(clk, freq, n, j);
    }
  }

  lemma GuessValue(d: nat, freq: int, i: nat)
    requires 0 < freq && i < 4
    ensures Guess(d, freq, i) <= 0x1FFF
    ensures 0 <= d / freq + i - 2 <= 0x1FFF ==> Guess(d, freq, i) == d / freq + i - 2
    ensures d / freq + i - 2 < 0 ==> Guess(d, freq, i) == 0
    ensures d / freq + i - 2 > 0x1FFF ==> Guess(d, freq, i) == 0x1FFF
  {
  }

  /** The candidate at the quotient, tried before the one past it, is at least as close. */
  lemma AtQuotient(d: nat, freq: int, q: nat)
    requires 0 < freq && q == d / freq < 0x1FFF
    ensures Scaled(d, q + 1) <= GuessFreq(d, freq, 2) <= freq
  {
    hide Guess, ClampPre, Scaled;
    GuessValue(d, freq, 2);
    ScaledChoice(d, freq, q);
  }

  lemma ScaledChoice(d: nat, freq: int, q: nat)
    requires 0 < freq && q == d / freq
    ensures Scaled(d, q + 1) <= Scaled(d, q) <= freq
  {
    PrescalerChoiceAtQuotient(d, freq, q);
    DivAntitone(d, q + 1, q + 2);
  }

  /** A search without an exact hit keeps the quotient itself as prescaler. */
  lemma KeptIsQuotient(d: nat, freq: int, i: nat)
    requires FirstBest(d, freq, i) && GuessFreq(d, freq, i) < freq
    ensures Guess(d, freq, i) == d / freq <= 0x1FFF && GuessFreq(d, freq, i) == d / (d / freq + 1)
  {
    hide Guess, ClampPre;
    var q, pre := d / freq, Guess(d, freq, i);
    DivAtLeast(d, freq, 0);
    GuessValue(d, freq, i);
    if pre < q {
      BelowQuotient(d, freq, pre);
    } else if pre > q {
      AtQuotient(d, freq, q);
    }
  }

  /** Asking for the f = d/(q+1) achieved shifts the quotient by one or two, unless freq was reachable. */
  lemma QuotientShift(d: nat, freq: nat, q: nat, f: nat)
    requires 0 < f < freq && q == d / freq && f == d / (q + 1)
    ensures q + 1 <= d / f
    ensures d / f <= q + 2 || (1 <= q && Scaled(d, q - 1) == freq)
  {
    DivAtLeast(d, q + 1, f);
    DivAtLeast(d, f, q + 1);
    if q + 3 <= d / f {
      DivAtLeast(d, f, q + 3);
      DivBounds(d, q + 1);
      FlatQuotients(d, q, f);
      BelowQuotient(d, freq, q - 1);
    }
  }

  /** When d/(q+1) and d/(q+3) are both f, the quotient by q is at most one more. */
  lemma FlatQuotients(d: nat, q: nat, f: nat)
    requires 0 < f && (q + 3) * f <= d < (q + 1) * f + (q + 1)
    ensures 1 <= q && d / q <= f + 1
  {
    assert (q + 3) * f == (q + 1) * f + 2 * f;
    assert (f + 2) * q == (q + 1) * f + 2 * q - f;
    DivAtLeast(d, q, f + 2);
  }

  /** Of the candidates for the frequency achieved, the first to give it again is prescaler q. */
  lemma SecondSearch(d: nat, freq: nat, q: nat, f: nat, i: nat)
    requires 0 < f < freq && q == d / freq <= 0x1FFF && f == d / (q + 1) && q + 1 <= d / f <= q + 2
    requires FirstBest(d, f, i) && GuessFreq(d, f, i) == f
    ensures Guess(d, f, i) == q
  {
    hide Guess, ClampPre;
    var first: nat := q + 2 - d / f;
    GuessValue(d, f, first);
    assert GuessFreq(d, f, first) == f;
    if i < first {
      GuessValue(d, f, i);
      if 1 <= q {
        BelowQuotient(d, freq, q - 1);
      }
    }
  }

  /** Both searches on one divider. */
  lemma SamePrescaler(d: nat, freq: nat, i: nat, f: nat, i': nat)
    requires 0 < f < freq && FirstBest(d, freq, i) && GuessFreq(d, freq, i) == f
    requires FirstBest(d, f, i') && GuessFreq(d, f, i') == f
    requires forall pre: nat :: pre <= 0x1FFF ==> Scaled(d, pre) != freq
    ensures Guess(d, freq, i) == Guess(d, f, i')
  {
    hide Guess, GuessFreq, FirstBest;
    KeptIsQuotient(d, freq, i);
    var q := d / freq;
    DivAtLeast(d, freq, 0);
    QuotientShift(d, freq, q, f);
    SecondSearch(d, freq, q, f, i');
  }

  /** Between the early returns, asking for what one got gives the same register. */
  lemma SameRegister(clk: CpuClock, freq: uint32, f: uint32)
    requires InRange(clk, freq) && InRange(clk, f) && f < freq && !Reachable(clk, freq)
    requires TriedFreqs(clk, freq)[BestIndex(clk, freq)] == f == TriedFreqs(clk, f)[BestIndex(clk, f)]
    ensures Tried(clk, freq, BestIndex(clk, freq)) == Tried(clk, f, BestIndex(clk, f))
  {
    hide Tried, TriedFreqs, MinFreq, Freq, Reachable, Guess, GuessFreq, Base, FirstBest;
    var n, i := KeptInRow(clk, freq);
    var n', i' := KeptInRow(clk, f);
    var d := Base(clk, n);
    InRow(clk, freq, n, i);
    InRow(clk, f, n', i');
    FirstDivider(clk, f, n, Guess(d, freq, i));
    FirstDivider(clk, freq, n', Guess(Base(clk, n'), f, i'));
    assert n' == n;
    forall pre: nat | pre <= 0x1FFF
      ensures Scaled(d, pre) != freq
    {
      BaseFreq(clk, n, pre);
      Reaches(clk, n, pre);
    }
    SamePrescaler(d, freq, i, f, i');
  }

  lemma InRow(clk: CpuClock, freq: uint32, n: nat, i: nat)
    requires 0 < freq && 1 <= n <= 63 && i < 4
    ensures var k, pre := 4 * (n - 1) + i, Guess(Base(clk, n), freq, i);
            && k < CANDIDATES && k / 4 == n - 1 && pre <= 0x1FFF
            && Tried(clk, freq, k) == SpiClk((n + 1) / 2, 0, n, pre, 0)
            && TriedFreqs(clk, freq)[k] == GuessFreq(Base(clk, n), freq, i) == Freq(clk, n, pre)
  {
    hide Tried, TriedFreqs, Freq, Guess, Base;
    TriedParts(clk, freq, n, i);
    GuessValue(Base(clk, n), freq, i);
    BaseFreq(clk, n, Guess(Base(clk, n), freq, i));
  }

  lemma BaseFreq(clk: CpuClock, n: nat, pre: nat)
    ensures Scaled(Base(clk, n), pre) == Freq(clk, n, pre)
  {
    FreqAsTwoDivisions(clk, n, pre);
  }

  lemma Reaches(clk: CpuClock, n: nat, pre: nat)
    requires 1 <= n <= 63 && pre <= 0x1FFF
    ensures Reachable(clk, Freq(clk, n, pre))
  {
  }

  /** Asking for the frequency one got gives the same register again exactly from the slowest divider up:
      below it the constant is returned, but the search encodes the same frequency with a nonzero regL. */
  lemma RegisterIsFixedExactly(clk: CpuClock, freq: uint32)
    ensures FrequencyToClockDiv(clk, Achieved(clk, freq)) == FrequencyToClockDiv(clk, freq) <==> MinFreq(clk) <= freq
  {
    hide FrequencyToClockDiv, Achieved, MinFreq, BestIndex, Reachable, Tried, TriedFreqs;
    MinFreqValue(clk);
    EarlyReturns(clk, freq);
    AchievedIsIdempotent(clk, freq);
    if freq < MinFreq(clk) {
      SearchedRegL(clk, MinFreq(clk));
      assert Fields(MIN_FREQ_REG).regL == 0;
    } else if freq < clk {
      RegisterIsFixedInside(clk, freq);
    } else {
      EarlyReturns(clk, clk);
    }
  }

  lemma RegisterIsFixedInside(clk: CpuClock, freq: uint32)
    requires InRange(clk, freq)
    ensures FrequencyToClockDiv(clk, Achieved(clk, freq)) == FrequencyToClockDiv(clk, freq)
  {
    hide FrequencyToClockDiv, Achieved, MinFreq, BestIndex, Reachable, Tried, TriedFreqs;
    var f := Achieved(clk, freq);
    AchievedInRange(clk, freq);
    AchievedIsIdempotent(clk, freq);
    if f < freq {
      MetExactly(clk, freq);
      var k := AchievedIsTried(clk, freq);
      var k' := AchievedIsTried(clk, f);
      SameRegister(clk, freq, f);
    }
  }

  lemma AchievedInRange(clk: CpuClock, freq: uint32)
    requires InRange(clk, freq)
    ensures InRange(clk, Achieved(clk, freq)) && Achieved(clk, freq) <= freq
  {
    hide Achieved, MinFreq, Freq;
    var n, pre := AchievedIsReached(clk, freq);
    AtLeastMin(clk, n, pre);
  }

  // ---------- the register as a number ----------

  /** The register of divider n and prescaler pre: n in bits 12 to 17, pre from bit 18 on, and half the divider
      in the low bits; neither the high-time field nor the top bit, which bypasses the divider. */
  lemma RegisterValue(n: nat, pre: nat)
    requires 1 <= n <= 63 && pre <= 0x1FFF
    ensures SpiClk((n + 1) / 2, 0, n, pre, 0).Valid()
    ensures SpiClk((n + 1) / 2, 0, n, pre, 0).Value() == pre * 0x4_0000 + n * 0x1000 + (n + 1) / 2
  {
  }

  /** No smaller divider, with any prescaler, and no smaller prescaler from two below the quotient on, gives
      what this register gives. */
  ghost predicate IsFirst(clk: CpuClock, freq: uint32, n: nat, pre: nat)
    requires 0 < freq
  {
    && (forall n': nat, pre': nat :: 1 <= n' < n && pre' <= 0x1FFF ==> Freq(clk, n', pre') != Freq(clk, n, pre))
    && (forall p: nat :: clk / (n + 1) / freq - 2 <= p < pre ==> Freq(clk, n, p) != Freq(clk, n, pre))
  }

  /** The register returned, as a number, for every request: the two constants of the early returns, and between
      them the first register that comes closest from below. */
  lemma RegisterIs(clk: CpuClock, freq: uint32)
    ensures clk <= freq ==> FrequencyToClockDiv(clk, freq) == 0x8000_0000
    ensures freq < clk / 0x8_0000 ==> FrequencyToClockDiv(clk, freq) == 0x7FFF_F000
    ensures clk / 0x8_0000 <= freq < clk ==>
              exists n: nat, pre: nat ::
                && 1 <= n <= 63 && pre <= 0x1FFF && 0 < freq
                && FrequencyToClockDiv(clk, freq) == pre * 0x4_0000 + n * 0x1000 + (n + 1) / 2
                && IsClosestBelow(clk, freq, Freq(clk, n, pre))
                && IsFirst(clk, freq, n, pre)
  {
    hide FrequencyToClockDiv, Achieved, MinFreq, Freq, IsClosestBelow, IsFirst;
    MinFreqValue(clk);
    EarlyReturns(clk, freq);
    if InRange(clk, freq) {
      var n, pre := RegisterInside(clk, freq);
    }
  }

  lemma RegisterInside(clk: CpuClock, freq: uint32) returns (n: nat, pre: nat)
    requires InRange(clk, freq)
    ensures 1 <= n <= 63 && pre <= 0x1FFF
    ensures FrequencyToClockDiv(clk, freq) == pre * 0x4_0000 + n * 0x1000 + (n + 1) / 2
    ensures IsClosestBelow(clk, freq, Freq(clk, n, pre)) && IsFirst(clk, freq, n, pre)
  {
    hide FrequencyToClockDiv, Achieved, MinFreq, Freq, IsClosestBelow, Tried, TriedFreqs, Guess, GuessFreq, Base;
    var k := AchievedIsTried(clk, freq);
    var i;
    n, i := KeptInRow(clk, freq);
    InRow(clk, freq, n, i);
    pre := Guess(Base(clk, n), freq, i);
    RegisterValue(n, pre);
    SearchRefinesBruteForce(clk, freq);
    forall n': nat, pre': nat | 1 <= n' < n && pre' <= 0x1FFF
      ensures Freq(clk, n', pre') != Freq(clk, n, pre)
    {
      if Freq(clk, n', pre') == Freq(clk, n, pre) {
        FirstDivider(clk, freq, n', pre');
        assert false;
      }
    }
    forall p: nat | clk / (n + 1) / freq - 2 <= p < pre
      ensures Freq(clk, n, p) != Freq(clk, n, pre)
    {
      EarlierGuess(clk, freq, n, i, p);
    }
  }

  /** Every prescaler from two below the quotient up to the one kept was tried before it. */
  lemma EarlierGuess(clk: CpuClock, freq: uint32, n: nat, i: nat, p: nat)
    requires 0 < freq && 1 <= n <= 63 && FirstBest(Base(clk, n), freq, i)
    requires clk / (n + 1) / freq - 2 <= p < Guess(Base(clk, n), freq, i)
    ensures Freq(clk, n, p) != Freq(clk, n, Guess(Base(clk, n), freq, i))
  {
    hide Freq, Guess, ClampPre;
    var d := Base(clk, n);
    GuessValue(d, freq, i);
    DivAtLeast(d, freq, 0);
    var j: nat := p + 2 - d / freq;
    GuessValue(d, freq, j);
    BaseFreq(clk, n, p);
    BaseFreq(clk, n, Guess(d, freq, i));
    assert GuessFreq(d, freq, j) == Scaled(d, p);
  }

  /** The bit that bypasses the divider is set exactly at or above the CPU clock. */
  lemma BypassedExactly(clk: CpuClock, freq: uint32)
    ensures Fields(FrequencyToClockDiv(clk, freq)).regEQU == if clk <= freq then 1 else 0
  {
    hide FrequencyToClockDiv, Achieved, MinFreq, Fields, Tried, Freq, TriedFreqs;
    MinFreqValue(clk);
    EarlyReturns(clk, freq);
    EarlyRegisters();
    if InRange(clk, freq) {
      var k := AchievedIsTried(clk, freq);
      FieldsOfValue(Tried(clk, freq, k));
      TriedIsDivided(clk, freq, k);
    }
  }

  lemma TriedIsDivided(clk: CpuClock, freq: uint32, k: nat)
    requires 0 < freq
    ensures Tried(clk, freq, k).regEQU == 0
  {
  }

  lemma EarlyRegisters()
    ensures Fields(SPI_CLK_EQU_SYSCLK).regEQU == 1 && Fields(MIN_FREQ_REG).regEQU == 0
  {
  }

  // ---------- registers that the search never tries ----------

  lemma SixtySeventhIsUnreachable(clk: CpuClock, n: nat, pre: nat)
    requires 1 <= n <= 63
    ensures Freq(clk, n, pre) != clk / 67
  {
    var m := (pre + 1) * (n + 1);
    DivisorPositive(n, pre);
    SixtySevenIsPrime(n + 1, pre + 1);
    if m <= 66 {
      DivAntitone(clk, m, 66);
    } else {
      DivAntitone(clk, 68, m);
    }
  }

  lemma SixtySevenIsPrime(a: nat, b: nat)
    requires 2 <= a <= 64
    ensures b * a != 67
  {
    MultipleHasNoRemainder(b, a);
  }

  /** The first divisor of the clock that does not overshoot. */
  function FirstDivisor(clk: CpuClock, freq: uint32): (m: nat)
    ensures 0 < m
  {
    DivAtLeast(clk, freq + 1, 0);
    clk / (freq + 1) + 1
  }

  function ClosestUndivided(clk: CpuClock, freq: uint32): nat {
    clk / FirstDivisor(clk, freq)
  }

  lemma FirstDivisorIsFirst(clk: CpuClock, freq: uint32, m: nat)
    requires 0 < m
    ensures clk / m <= freq <==> FirstDivisor(clk, freq) <= m
  {
    DivAtLeast(clk, m, freq + 1);
    DivAtLeast(clk, freq + 1, m);
  }

  /** n = 0 is never tried.  The result is still the best over those registers too exactly when the closest of
      them needs a prescaler past 13 bits or gives a frequency that the search can reach. */
  lemma BestOverUndividedExactly(clk: CpuClock, freq: uint32)
    requires InRange(clk, freq)
    ensures (forall pre: nat :: pre <= 0x1FFF && Freq(clk, 0, pre) <= freq ==> Freq(clk, 0, pre) <= Achieved(clk, freq))
       <==> FirstDivisor(clk, freq) > 0x2000 || Reachable(clk, ClosestUndivided(clk, freq))
  {
    hide Achieved, MinFreq, FirstDivisor, Reachable, Freq;
    var m := FirstDivisor(clk, freq);
    DividedIsNoFaster(clk, freq);
    if m <= 0x2000 {
      UndividedFreq(clk, m - 1);
      FirstDivisorIsFirst(clk, freq, m);
      if Reachable(clk, clk / m) {
        ReachableIsNoFaster(clk, freq, clk / m);
      }
    }
    if m > 0x2000 || Reachable(clk, clk / m) {
      forall pre: nat | pre <= 0x1FFF && Freq(clk, 0, pre) <= freq
        ensures Freq(clk, 0, pre) <= Achieved(clk, freq)
      {
        UndividedFreq(clk, pre);
        FirstDivisorIsFirst(clk, freq, pre + 1);
        DivAntitone(clk, m, pre + 1);
      }
    }
  }

  lemma UndividedFreq(clk: CpuClock, pre: nat)
    ensures Freq(clk, 0, pre) == clk / (pre + 1)
  {
  }

  lemma ReachableIsNoFaster(clk: CpuClock, freq: uint32, f: nat)
    requires InRange(clk, freq) && Reachable(clk, f) && f <= freq
    ensures f <= Achieved(clk, freq)
  {
    hide Achieved, MinFreq, Freq;
    SearchRefinesBruteForce(clk, freq);
  }

  /** The result, too, divides the clock by at least that divisor. */
  lemma DividedIsNoFaster(clk: CpuClock, freq: uint32)
    requires InRange(clk, freq)
    ensures Reachable(clk, Achieved(clk, freq)) && Achieved(clk, freq) <= ClosestUndivided(clk, freq)
  {
    hide Achieved, MinFreq, Freq, Reachable, FirstDivisor;
    var n, pre := AchievedIsReached(clk, freq);
    Reaches(clk, n, pre);
    FreqIsNoFaster(clk, freq, n, pre);
  }

  lemma FreqIsNoFaster(clk: CpuClock, freq: uint32, n: nat, pre: nat)
    requires Freq(clk, n, pre) <= freq
    ensures Freq(clk, n, pre) <= ClosestUndivided(clk, freq)
  {
    hide FirstDivisor;
    DivisorPositive(n, pre);
    var m := (pre + 1) * (n + 1);
    FirstDivisorIsFirst(clk, freq, m);
    DivAntitone(clk, FirstDivisor(clk, freq), m);
  }

  /** Some frequency fails that condition for every clock: one that n = 0 meets and the search misses. */
  lemma UndividedRegistersAreMissed(clk: CpuClock)
    ensures Freq(clk, 0, 66) == clk / 67 && Achieved(clk, clk / 67) < clk / 67
  {
    hide Freq, Achieved, MinFreq, Reachable;
    var f := clk / 67;
    UndividedFreq(clk, 66);
    SixtySeventhInRange(clk);
    SixtySeventhIsNotReached(clk);
    NeverFasterThanAsked(clk, f);
    MetExactly(clk, f);
  }

  lemma SixtySeventhInRange(clk: CpuClock)
    ensures MinFreq(clk) <= clk / 67 < clk
  {
    hide Freq, MinFreq;
    MinFreqValue(clk);
    DivAntitone(clk, 67, 0x8_0000);
  }

  lemma SixtySeventhIsNotReached(clk: CpuClock)
    ensures !Reachable(clk, clk / 67)
  {
    hide Freq;
    forall n: nat, pre: nat | 1 <= n <= 63
      ensures Freq(clk, n, pre) != clk / 67
    {
      SixtySeventhIsUnreachable(clk, n, pre);
    }
  }

  lemma MultipleHasNoRemainder(b: nat, a: nat)
    requires 0 < a
    ensures b * a % a == 0
  {
    DivBounds(b * a, a);
    DivAtLeast(b * a, a, b);
    DivAtLeast(b * a, a, b + 1);
    assert (b + 1) * a == b * a + a;
  }
}
