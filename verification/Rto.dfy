/** The sender's retransmission timer: the estimator of section 2 of RFC 6298 with the
    firmware's own clamps, in the firmware's 32-bit arithmetic. */
module Rto {

  const RTO_MIN_MS := 200
  const RTO_MAX_MS := 5000
  const MAX_RETRIES := 12
  /** No sample of this size or more occurs in six days of uptime. */
  const SAMPLE_LIMIT := 0x2000_0000
  const BASE_ARQ_TIMEOUT_MS := 3000
  const MAX_ARQ_TIMEOUT_MS := 8000

  datatype Estimator = Estimator(srtt: nat, rttvar: nat, rto: nat, initialized: bool)

  const Initial := Estimator(0, 0, 0, false)

  function U32(x: int): nat {
    x % 0x1_0000_0000
  }

  /** static_cast<int32_t> of a 32-bit value. */
  function I32(x: nat): int {
    if x < 0x8000_0000 then x else x - 0x1_0000_0000
  }

  function AbsDelta(rtt: nat, srtt: nat): nat {
    var delta := I32(rtt) - I32(srtt);
    if delta < 0 then U32(-delta) else U32(delta)
  }

  function Clamp(rto: nat, floor: nat): nat {
    var a := if rto < RTO_MIN_MS then RTO_MIN_MS else rto;
    var b := if a < floor then floor else a;
    if b > RTO_MAX_MS then RTO_MAX_MS else b
  }

  /** One round-trip sample, taken from a first-attempt ACK. */
  function Sample(e: Estimator, rtt: nat, floor: nat): Estimator {
    var srtt := if !e.initialized then rtt else U32(U32(7 * e.srtt) + rtt) / 8;
    var rttvar := if !e.initialized then rtt / 2 else U32(U32(3 * e.rttvar) + AbsDelta(rtt, e.srtt)) / 4;
    Estimator(srtt, rttvar, Clamp(U32(srtt + U32(4 * rttvar)), floor), true)
  }

  /** A round trip and the floor that was configured when it was measured. */
  datatype Measured = Measured(rtt: nat, floor: nat)

  /** The estimator after a history of samples. */
  function Run(history: seq<Measured>): Estimator {
    if history == [] then Initial
    else
      var last := history[|history| - 1];
      Sample(Run(history[..|history| - 1]), last.rtt, last.floor)
  }

  lemma RunNext(history: seq<Measured>, m: Measured)
    ensures Run(history + [m]) == Sample(Run(history), m.rtt, m.floor) && Run([]) == Initial
  {
    assert (history + [m])[..|history|] == history;
  }

  /** Whatever was measured, even if it wrapped: the timeout never exceeds the cap. */
  lemma RunIsCapped(history: seq<Measured>)
    ensures Run(history).rto <= RTO_MAX_MS && (Run(history).initialized <==> history != [])
  {
    hide U32;
  }

  /** Over any history of samples the smoothed RTT stays between the extremes seen, the
      variance never exceeds the largest sample, no 32-bit operation wraps and the timeout
      stays between the floor and the cap. */
  lemma {:induction false} EstimatorBounds(history: seq<Measured>, lo: nat, hi: nat)
    requires history != [] && hi < SAMPLE_LIMIT
    requires forall i :: 0 <= i < |history| ==> lo <= history[i].rtt <= hi && history[i].floor <= RTO_MAX_MS
    ensures var e, floor := Run(history), history[|history| - 1].floor;
            && e.initialized
            && lo <= e.srtt <= hi && e.rttvar <= hi
            && RTO_MIN_MS <= e.rto && floor <= e.rto <= RTO_MAX_MS
            && e.rto == Clamp(e.srtt + 4 * e.rttvar, floor)
  {
    var prefix, last := history[..|history| - 1], history[|history| - 1];
    assert lo <= last.rtt <= hi;
    if prefix == [] {
      FirstSample(last.rtt, last.floor);
    } else {
      EstimatorBounds(prefix, lo, hi);
      NextSample(Run(prefix), last.rtt, last.floor, lo, hi);
    }
  }

  lemma NoWrap(x: nat)
    requires x < 0x1_0000_0000
    ensures U32(x) == x
  {
  }

  lemma FirstSample(rtt: nat, floor: nat)
    requires rtt < SAMPLE_LIMIT
    ensures Sample(Initial, rtt, floor) == Estimator(rtt, rtt / 2, Clamp(rtt + 4 * (rtt / 2), floor), true)
  {
    NoWrap(4 * (rtt / 2));
    NoWrap(rtt + 4 * (rtt / 2));
  }

  lemma NextSample(e: Estimator, rtt: nat, floor: nat, lo: nat, hi: nat)
    requires e.initialized && hi < SAMPLE_LIMIT
    requires lo <= e.srtt <= hi && lo <= rtt <= hi && e.rttvar <= hi
    ensures var e' := Sample(e, rtt, floor);
            && e'.initialized && lo <= e'.srtt <= hi && e'.rttvar <= hi
            && e'.rto == Clamp(e'.srtt + 4 * e'.rttvar, floor)
  {
    hide Clamp, U32;
    var delta := AbsDelta(rtt, e.srtt);
    AbsDeltaExact(rtt, e.srtt);
    assert delta == if rtt < e.srtt then e.srtt - rtt else rtt - e.srtt;
    var srtt, rttvar := (7 * e.srtt + rtt) / 8, (3 * e.rttvar + delta) / 4;
    NoWrap(7 * e.srtt);
    NoWrap(7 * e.srtt + rtt);
    NoWrap(3 * e.rttvar);
    NoWrap(3 * e.rttvar + delta);
    NoWrap(4 * rttvar);
    NoWrap(srtt + 4 * rttvar);
  }

  function Min(a: int, b: int): int {
    if a < b then a else b
  }

  function Max(a: int, b: int): int {
    if a < b then b else a
  }

  /** What one sample does to a running estimate: it moves an eighth of the way towards the
      sample, rounded down in the end; the deviation becomes three quarters of itself and one
      of the distance that the sample had from the estimate before; the timeout is four deviations
      above the estimate, within the floors and the cap. The first sample is the estimate. */
  ghost predicate Moved(e: Estimator, e': Estimator, rtt: nat, floor: nat) {
    && e'.initialized
    && (!e.initialized ==> e'.srtt == rtt && 2 * e'.rttvar <= rtt <= 2 * e'.rttvar + 1)
    && (e.initialized && e.srtt <= rtt ==> 8 * (e'.srtt - e.srtt) <= rtt - e.srtt < 8 * (e'.srtt - e.srtt) + 8)
    && (e.initialized && rtt <= e.srtt ==> 8 * (e.srtt - e'.srtt) - 8 < e.srtt - rtt <= 8 * (e.srtt - e'.srtt))
    && (e.initialized ==> 4 * e'.rttvar <= 3 * e.rttvar + Max(rtt - e.srtt, e.srtt - rtt) < 4 * e'.rttvar + 4)
    && e'.rto == Min(5000, Max(Max(200, floor), e'.srtt + 4 * e'.rttvar))
  }

  /** Where a sample moves the estimate, as long as no number comes near 32 bits. */
  lemma SampleMoves(e: Estimator, rtt: nat, floor: nat)
    requires rtt < SAMPLE_LIMIT && (e.initialized ==> e.srtt < SAMPLE_LIMIT && e.rttvar < SAMPLE_LIMIT)
    ensures Moved(e, Sample(e, rtt, floor), rtt, floor)
  {
    if e.initialized {
      NextSample(e, rtt, floor, 0, SAMPLE_LIMIT - 1);
      hide Clamp, U32;
      AbsDeltaExact(rtt, e.srtt);
      NoWrap(7 * e.srtt);
      NoWrap(7 * e.srtt + rtt);
      NoWrap(3 * e.rttvar);
      NoWrap(3 * e.rttvar + AbsDelta(rtt, e.srtt));
    } else {
      assert Sample(e, rtt, floor) == Sample(Initial, rtt, floor);
      FirstSample(rtt, floor);
    }
    ClampIs(Sample(e, rtt, floor).srtt + 4 * Sample(e, rtt, floor).rttvar, floor);
  }

  lemma ClampIs(rto: nat, floor: nat)
    ensures Clamp(rto, floor) == Min(5000, Max(Max(200, floor), rto))
  {
  }

  lemma AbsDeltaExact(rtt: nat, srtt: nat)
    requires rtt < SAMPLE_LIMIT && srtt < SAMPLE_LIMIT
    ensures AbsDelta(rtt, srtt) == if rtt < srtt then srtt - rtt else rtt - srtt
  {
  }

  /** Constant round trips make the estimate exact and let the variance die out. */
  lemma SteadySamples(e: Estimator, rtt: nat, floor: nat)
    requires e.initialized && e.srtt == rtt < SAMPLE_LIMIT && e.rttvar < SAMPLE_LIMIT
    ensures Sample(e, rtt, floor).srtt == rtt
    ensures Sample(e, rtt, floor).rttvar == 3 * e.rttvar / 4
    ensures e.rttvar > 0 ==> Sample(e, rtt, floor).rttvar < e.rttvar
  {
    hide Clamp, U32;
    assert AbsDelta(rtt, rtt) == U32(0);
    NoWrap(0);
    NoWrap(7 * rtt);
    NoWrap(7 * rtt + rtt);
    NoWrap(3 * e.rttvar);
  }

  /** n samples of the same size. */
  function Repeated(e: Estimator, rtt: nat, floor: nat, n: nat): Estimator {
    if n == 0 then e else Sample(Repeated(e, rtt, floor, n - 1), rtt, floor)
  }

  function Power(base: nat, n: nat): nat {
    if n == 0 then 1 else base * Power(base, n - 1)
  }

  /** Constant round trips draw the estimate towards themselves without passing them: the distance
      shrinks by an eighth each time, up to 7 ms if the estimate comes from below. */
  lemma {:induction false} Converges(e: Estimator, rtt: nat, floor: nat, n: nat)
    requires e.initialized && e.srtt < SAMPLE_LIMIT && e.rttvar < SAMPLE_LIMIT && rtt < SAMPLE_LIMIT
    ensures var e' := Repeated(e, rtt, floor, n);
            && e'.initialized && e'.srtt < SAMPLE_LIMIT && e'.rttvar < SAMPLE_LIMIT
            && (rtt <= e.srtt ==> rtt <= e'.srtt && Power(8, n) * (e'.srtt - rtt) <= Power(7, n) * (e.srtt - rtt))
            && (e.srtt <= rtt ==>
                  e'.srtt <= rtt && Power(8, n) * Max(0, rtt - e'.srtt - 7) <= Power(7, n) * Max(0, rtt - e.srtt - 7))
  {
    if n > 0 {
      Converges(e, rtt, floor, n - 1);
      var d := Repeated(e, rtt, floor, n - 1);
      var e' := Sample(d, rtt, floor);
      SampleMoves(d, rtt, floor);
      NextSample(d, rtt, floor, 0, SAMPLE_LIMIT - 1);
      hide Sample;
      if rtt <= e.srtt {
        assert 8 * (e'.srtt - rtt) <= 7 * (d.srtt - rtt);
        Shrinks(Power(8, n - 1), Power(7, n - 1), e'.srtt - rtt, d.srtt - rtt, e.srtt - rtt);
      }
      if e.srtt <= rtt {
        assert 8 * Max(0, rtt - e'.srtt - 7) <= 7 * Max(0, rtt - d.srtt - 7);
        Shrinks(Power(8, n - 1), Power(7, n - 1), Max(0, rtt - e'.srtt - 7), Max(0, rtt - d.srtt - 7), Max(0, rtt - e.srtt - 7));
      }
    }
  }

  lemma Shrinks(p: nat, q: nat, z: int, y: int, x: int)
    requires 8 * z <= 7 * y && p * y <= q * x
    ensures (8 * p) * z <= (7 * q) * x
  {
    assert p * (8 * z) <= p * (7 * y);
    assert (8 * p) * z == p * (8 * z) && p * (7 * y) == 7 * (p * y) && (7 * q) * x == 7 * (q * x);
  }

  function Pow2(n: nat): nat {
    if n == 0 then 1 else 2 * Pow2(n - 1)
  }

  function BaseRto(e: Estimator, timeout: nat, floor: nat): nat {
    var base := if e.initialized then e.rto else timeout;
    if base < floor then floor else base
  }

  /** The timeout of a slot after the given number of retries. */
  function Backoff(e: Estimator, timeout: nat, floor: nat, retries: nat): nat {
    var backoff := U32(BaseRto(e, timeout, floor) * Pow2(retries));
    if backoff > RTO_MAX_MS then RTO_MAX_MS else backoff
  }

  lemma {:induction false} Pow2Mono(a: nat, b: nat)
    requires a <= b
    ensures 1 <= Pow2(a) <= Pow2(b)
    decreases b
  {
    if a < b {
      Pow2Mono(a, b - 1);
    } else if a > 0 {
      Pow2Mono(a - 1, b - 1);
    }
  }

  lemma Pow2OfTwelve()
    ensures Pow2(12) == 4096
  {
    assert Pow2(4) == 16;
    assert Pow2(8) == 256;
  }

  /** While the sender has not failed the shift neither overflows 32 bits nor takes the
      timeout outside [floor, cap], and each retry doubles it up to the cap. */
  lemma BackoffBounds(e: Estimator, timeout: nat, floor: nat, retries: nat)
    requires retries <= MAX_RETRIES && timeout <= MAX_ARQ_TIMEOUT_MS && floor <= RTO_MAX_MS
    requires e.initialized ==> e.rto <= RTO_MAX_MS
    ensures BaseRto(e, timeout, floor) * Pow2(retries) < 0x1_0000_0000
    ensures floor <= Backoff(e, timeout, floor, retries) <= RTO_MAX_MS
    ensures retries < MAX_RETRIES ==>
              var now, next := Backoff(e, timeout, floor, retries), Backoff(e, timeout, floor, retries + 1);
              next == if 2 * now > RTO_MAX_MS then RTO_MAX_MS else 2 * now
  {
    hide U32, Pow2;
    var base := BaseRto(e, timeout, floor);
    Pow2OfTwelve();
    Pow2Mono(retries, 12);
    assert base <= 8000;
    Products(base, Pow2(retries));
    NoWrap(base * Pow2(retries));
    if retries < MAX_RETRIES {
      Pow2Mono(retries + 1, 12);
      Products(base, Pow2(retries + 1));
      NoWrap(base * Pow2(retries + 1));
      DoubleProduct(base, retries);
    }
  }

  /** The first timeout of a slot: the learned one or, before the first sample, the configured
      one, but not below the floor and 5000 ms at most. */
  function FirstTimeout(e: Estimator, timeout: nat, floor: nat): int {
    Min(5000, Max(floor, if e.initialized then e.rto else timeout))
  }

  lemma BaseIs(e: Estimator, timeout: nat, floor: nat)
    ensures BaseRto(e, timeout, floor) == Max(floor, if e.initialized then e.rto else timeout)
  {
  }

  /** The timeout of a slot in plain terms: the first one, doubled by every retry, 5000 ms at
      most. Once something was measured the configured timeout does not matter any more. */
  lemma BackoffIs(e: Estimator, timeout: nat, floor: nat, retries: nat)
    requires retries <= MAX_RETRIES && timeout <= MAX_ARQ_TIMEOUT_MS && floor <= RTO_MAX_MS
    requires e.initialized ==> e.rto <= RTO_MAX_MS
    ensures Backoff(e, timeout, floor, retries) == Min(5000, FirstTimeout(e, timeout, floor) * Pow2(retries))
    ensures e.initialized ==> FirstTimeout(e, timeout, floor) == FirstTimeout(e, 0, floor)
  {
    hide U32, Pow2, BaseRto;
    BaseIs(e, timeout, floor);
    BackoffBounds(e, timeout, floor, retries);
    NoWrap(BaseRto(e, timeout, floor) * Pow2(retries));
    Pow2Mono(0, retries);
    CappedTwice(BaseRto(e, timeout, floor), Pow2(retries));
  }

  lemma CappedTwice(base: nat, p: nat)
    requires p >= 1
    ensures Min(5000, base * p) == Min(5000, Min(5000, base) * p)
  {
    if base > 5000 {
      assert base * p >= 5000 * p >= 5000;
    }
  }

  lemma DoubleProduct(base: nat, n: nat)
    ensures base * Pow2(n + 1) == 2 * (base * Pow2(n))
  {
  }

  lemma Products(base: nat, p: nat)
    requires base <= 8000 && 1 <= p <= 4096
    ensures base <= base * p <= 8000 * 4096
  {
    assert 0 <= base * (4096 - p) == base * 4096 - base * p;
    assert 0 <= base * (p - 1) == base * p - base;
  }

  // ---- Timers configured per hop count ----

  function ArqTimeout(hops: nat): nat {
    var t := BASE_ARQ_TIMEOUT_MS + hops * 1000;
    if t > MAX_ARQ_TIMEOUT_MS then MAX_ARQ_TIMEOUT_MS else t
  }

  function MinRtoFloor(hops: nat): nat {
    if hops <= 1 then 200
    else
      var f := 2400 + (hops - 2) * 400;
      if f > 4000 then 4000 else f
  }

  /** For every hop count the timers meet the preconditions under which the backoff is
      proved safe, and the floor never forces the first timeout above the cap. */
  lemma TimersFit(hops: nat)
    ensures ArqTimeout(hops) == Min(8000, 3000 + 1000 * hops)
    ensures MinRtoFloor(hops) == if hops <= 1 then 200 else Min(4000, 1600 + 400 * hops)
    ensures RTO_MIN_MS <= MinRtoFloor(hops) <= ArqTimeout(hops) <= MAX_ARQ_TIMEOUT_MS
    ensures MinRtoFloor(hops) <= RTO_MAX_MS
    ensures Backoff(Initial, ArqTimeout(hops), MinRtoFloor(hops), 0) >= MinRtoFloor(hops)
  {
    BackoffBounds(Initial, ArqTimeout(hops), MinRtoFloor(hops), 0);
  }
}
