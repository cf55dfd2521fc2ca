/** A model of the frame limiter `GameClock` of Project4.

    The clock keeps three integer tick counts: the ticks a frame must last
    (`cpf`, "clocks per frame"), the tick reading of the last accepted frame
    (`last`) and the ticks that frame lasted (`deltaTime`). The C++ object
    mutates them in place; here every operation is a pure function from one
    clock state to the next, and every reading of the system tick counter
    (`std::clock()`) is a parameter supplied by the caller.
 */
module GameClock {

  /** The state of one `GameClock` object. */
  datatype Clock = Clock(cpf: int, last: int, deltaTime: int)

  /** What `update()` hands back: whether the poll was skipped, and the
      state the object holds afterwards. */
  datatype UpdateResult = UpdateResult(skipped: bool, clock: Clock)

  /** The divisor `getDeltaTime()` uses to turn ticks into seconds. It is a
      literal in GameClock.cpp, not `CLOCKS_PER_SEC`. */
  const DeltaDivisor: int := 1000

  /** Conversion of a `double` to an integral type: truncation toward zero. */
  function TruncToInt(x: real): (n: int)
    ensures 0.0 <= x ==> 0 <= n && n as real <= x < n as real + 1.0
    ensures x < 0.0 ==> n <= 0 && n as real - 1.0 < x <= n as real
  {
    if 0.0 <= x then x.Floor else -((-x).Floor)
  }

  /** The constructor `GameClock(double fps)`, with `cps` standing for
      `CLOCKS_PER_SEC` and `now` for the tick reading taken at construction.
      The C++ constructor divides without a guard; a zero `fps` yields an infinite
      quotient whose conversion to `clock_t` is undefined, so it is excluded. */
  function New(cps: nat, fps: real, now: int): (c: Clock)
    requires fps != 0.0
    ensures c.last == now && c.deltaTime == 0
    ensures 0.0 < fps ==> 0 <= c.cpf && c.cpf as real * fps <= cps as real < (c.cpf + 1) as real * fps
    ensures fps < 0.0 ==> c.cpf <= 0
  {
    var c := Clock(TruncToInt(cps as real / fps), now, 0);
    CpfBounds(cps, fps, c.cpf);
    c
  }

  /** For a positive rate, the truncated quotient `cpf` is the largest whole
      number of ticks whose `fps` frames fit into one second. */
  lemma CpfBounds(cps: nat, fps: real, cpf: int)
    requires fps != 0.0 && cpf == TruncToInt(cps as real / fps)
    ensures 0.0 < fps ==> 0 <= cpf && cpf as real * fps <= cps as real < (cpf + 1) as real * fps
    ensures fps < 0.0 ==> cpf <= 0
  {
    var q := cps as real / fps;
    if 0.0 < fps {
      assert q * fps == cps as real;
      assert 0.0 <= q;
      assert cpf as real <= q < (cpf + 1) as real;
      MulMonotone(cpf as real, q, fps);
      MulMonotone(q, (cpf + 1) as real, fps);
      assert q * fps != (cpf + 1) as real * fps by {
        if q * fps == (cpf + 1) as real * fps {
          MulCancel(q, (cpf + 1) as real, fps);
          assert false;
        }
      }
      assert cps as real < (cpf + 1) as real * fps;
    } else {
      assert q == -(cps as real / -fps);
    }
  }

  lemma MulMonotone(a: real, b: real, k: real)
    requires a <= b && 0.0 < k
    ensures a * k <= b * k
  {
    assert b * k - a * k == (b - a) * k;
  }

  lemma MulCancel(a: real, b: real, k: real)
    requires k != 0.0 && a * k == b * k
    ensures a == b
  {
    assert (a - b) * k == 0.0;
  }

  /** `update()`, reading the tick counter three times as the C++ code does:
      `t1` for the test, `t2` for the delta and `t3` for the new `last`.
      It answers "skip" exactly when fewer than `cpf` ticks have passed. */
  function Update(c: Clock, t1: int, t2: int, t3: int): (r: UpdateResult)
    ensures r.skipped <==> t1 - c.last < c.cpf
    ensures r.clock.cpf == c.cpf
    ensures r.skipped ==> r.clock == c
    ensures !r.skipped ==> r.clock.last == t3 && r.clock.deltaTime == t2 - c.last
  {
    if t1 - c.last >= c.cpf then
      UpdateResult(false, Clock(c.cpf, t3, t2 - c.last))
    else
      UpdateResult(true, c)
  }

  /** A poll that reads the clock once: every sample of `Update` is `now`.
      It is the skew-free behaviour: on acceptance the delta is exactly the
      time between the two accepted frames, measured from the previous
      acceptance and not from the previous poll. */
  function Poll(c: Clock, now: int): (r: UpdateResult)
    ensures r.skipped <==> now - c.last < c.cpf
    ensures r.skipped ==> r.clock == c
    ensures !r.skipped ==> r.clock.last == now && r.clock.deltaTime == r.clock.last - c.last
    ensures r.clock.cpf == c.cpf
  {
    Update(c, now, now, now)
  }

  /** `getDeltaTime()`: the stored ticks divided by a literal 1000. The
      `float` rounding of the C++ code is not modelled; the value is exact,
      so scaling it back by 1000 recovers the stored ticks, and it has the
      sign of the stored ticks. */
  function DeltaSeconds(c: Clock): (r: real)
    ensures r * DeltaDivisor as real == c.deltaTime as real
    ensures r < 0.0 <==> c.deltaTime < 0
    ensures r == 0.0 <==> c.deltaTime == 0
  {
    c.deltaTime as real / DeltaDivisor as real
  }

  /** `getCPF()`: the frame length, observable as the smallest distance
      from `last` at which a poll proceeds. */
  function Cpf(c: Clock): (r: int)
    ensures !Poll(c, c.last + r).skipped
    ensures Poll(c, c.last + r - 1).skipped
  {
    c.cpf
  }

  /** `getLast()`: the reading from which the next frame is timed; a poll
      one frame length after it proceeds and stores exactly one frame
      length as its delta. */
  function Last(c: Clock): (r: int)
    ensures !Poll(c, r + c.cpf).skipped && Poll(c, r + c.cpf).clock.deltaTime == c.cpf
    ensures Poll(c, r + c.cpf - 1).skipped
  {
    c.last
  }

  /** The comparison of `update()` is inclusive: a poll exactly `cpf` ticks
      after the last accepted frame proceeds, one tick earlier skips. */
  lemma AcceptBoundaryInclusive(c: Clock, t2: int, t3: int)
    ensures !Update(c, c.last + c.cpf, t2, t3).skipped
    ensures Update(c, c.last + c.cpf - 1, t2, t3).skipped
  {
  }

  /** A skipped poll changes nothing, so any number of skipped polls in a
      row leave the clock exactly as the first found it, and polling the
      unchanged clock again at the same reading skips again. */
  lemma SkipIdempotent(c: Clock, t1: int, t2: int, t3: int, u2: int, u3: int)
    requires Update(c, t1, t2, t3).skipped
    ensures Update(Update(c, t1, t2, t3).clock, t1, u2, u3) == Update(c, t1, t2, t3)
  {
  }

  /** With a clock that never runs backwards, an update never moves `last`
      back, and an accepted one lasted at least `cpf` ticks. */
  lemma UpdateMonotone(c: Clock, t1: int, t2: int, t3: int)
    requires c.last <= t1 <= t2 <= t3
    ensures c.last <= Update(c, t1, t2, t3).clock.last <= t3
    ensures !Update(c, t1, t2, t3).skipped ==> Update(c, t1, t2, t3).clock.deltaTime >= c.cpf
  {
  }

  /** Because `update()` samples the clock again after computing the delta,
      an accepted update moves `last` by the delta plus the ticks between the
      second and third samples; those ticks belong to no frame. */
  lemma UpdateSkew(c: Clock, t1: int, t2: int, t3: int)
    requires !Update(c, t1, t2, t3).skipped
    ensures Update(c, t1, t2, t3).clock.last - c.last == Update(c, t1, t2, t3).clock.deltaTime + (t3 - t2)
  {
  }

  /** The skip decision of `update()` rests on its first reading alone, so
      the three-reading update skips exactly when a single-reading poll at
      that first reading would; on acceptance, with readings in order, it
      stores at least the delta the single-reading poll would store. */
  lemma UpdateDecidedByFirstReading(c: Clock, t1: int, t2: int, t3: int)
    requires t1 <= t2 <= t3
    ensures Update(c, t1, t2, t3).skipped == Poll(c, t1).skipped
    ensures !Poll(c, t1).skipped ==>
              Poll(c, t1).clock.deltaTime <= Update(c, t1, t2, t3).clock.deltaTime &&
              Poll(c, t1).clock.last <= Update(c, t1, t2, t3).clock.last
    ensures Update(c, t1, t1, t1) == Poll(c, t1)
  {
  }

  /** A fresh clock polled at its own construction instant skips exactly
      when its frame length is at least one tick, that is, exactly when the
      rate does not exceed `cps` frames per second. */
  lemma FirstPollAtConstruction(cps: nat, fps: real, now: int)
    requires 0.0 < fps
    ensures Poll(New(cps, fps, now), now).skipped <==> fps <= cps as real
  {
  }

  /** With a negative rate the constructor computes a frame length of zero
      or less, so the first poll that does not read before the construction
      instant proceeds. `ClockTrace.NonPositiveFrameNeverSkips` extends this
      to every poll of a run. */
  lemma NegativeRateNeverSkips(cps: nat, fps: real, now: int, t1: int, t2: int, t3: int)
    requires fps < 0.0 && now <= t1
    ensures !Update(New(cps, fps, now), t1, t2, t3).skipped
  {
  }

  /** `getDeltaTime()` divides by 1000 whatever `CLOCKS_PER_SEC` is: it
      reports the accepted frame's duration in seconds exactly when the tick
      rate is 1000 per second, or when there is no duration to report. */
  lemma DeltaSecondsMatchesTickRate(c: Clock, cps: nat)
    requires 0 < cps
    ensures DeltaSeconds(c) == c.deltaTime as real / cps as real <==> cps == DeltaDivisor || c.deltaTime == 0
  {
  }

  /** The getters read the state and nothing else: after construction they
      report the truncated frame length and the construction instant, and
      `update()` never changes what `getCPF()` reports. */
  lemma AccessorsObserveState(cps: nat, fps: real, now: int, t1: int, t2: int, t3: int)
    requires fps != 0.0
    ensures Cpf(New(cps, fps, now)) == TruncToInt(cps as real / fps)
    ensures Last(New(cps, fps, now)) == now && DeltaSeconds(New(cps, fps, now)) == 0.0
    ensures Cpf(Update(New(cps, fps, now), t1, t2, t3).clock) == Cpf(New(cps, fps, now))
    ensures !Update(New(cps, fps, now), t1, t2, t3).skipped ==>
              Last(Update(New(cps, fps, now), t1, t2, t3).clock) == t3
  {
  }
}
