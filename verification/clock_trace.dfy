/** Sequences of `update()` calls on one `GameClock`, as the render loop of
    Project4 makes them: it polls in a tight loop and skips all per-frame
    work while `update()` answers "skip". */
module ClockTrace {
  import opened GameClock

  /** The three tick readings one call of `update()` takes, in order. */
  datatype Sample = Sample(t1: int, t2: int, t3: int)

  /** The result of a run of polls: one "skipped" answer per poll, and the
      state of the clock after the last one. */
  datatype RunResult = RunResult(skips: seq<bool>, clock: Clock)

  /** The readings of a clock that never runs backwards, taken no earlier
      than `from`: each poll's three readings are in order, and each poll
      reads no earlier than the previous poll's last reading. */
  predicate NonDecreasing(from: int, samples: seq<Sample>)
    decreases |samples|
  {
    |samples| == 0 ||
    (from <= samples[0].t1 <= samples[0].t2 <= samples[0].t3 && NonDecreasing(samples[0].t3, samples[1..]))
  }

  /** Every poll reads the clock once, as the skew-free `Poll` does. */
  predicate SingleReading(samples: seq<Sample>)
  {
    forall i :: 0 <= i < |samples| ==> samples[i].t1 == samples[i].t2 == samples[i].t3
  }

  /** One call of `update()` with the readings of `s`. */
  function Step(c: Clock, s: Sample): UpdateResult
  {
    Update(c, s.t1, s.t2, s.t3)
  }

  /** A run of `update()` calls, one per sample, each on the state the
      previous one left. No poll changes the frame length. */
  function Run(c: Clock, samples: seq<Sample>): (r: RunResult)
    ensures |r.skips| == |samples|
    ensures r.clock.cpf == c.cpf
    decreases |samples|
  {
    if |samples| == 0 then
      RunResult([], c)
    else
      var u := Step(c, samples[0]);
      var rest := Run(u.clock, samples[1..]);
      RunResult([u.skipped] + rest.skips, rest.clock)
  }

  /** The states the clock passes through during a run: the initial one,
      then the state after each poll. */
  function States(c: Clock, samples: seq<Sample>): (st: seq<Clock>)
    ensures |st| == |samples| + 1
    ensures st[0] == c
    decreases |samples|
  {
    if |samples| == 0 then
      [c]
    else
      [c] + States(Step(c, samples[0]).clock, samples[1..])
  }

  /** The total of the deltas the accepted polls of a run stored. */
  function DeltaSum(c: Clock, samples: seq<Sample>): int
    decreases |samples|
  {
    if |samples| == 0 then
      0
    else
      var u := Step(c, samples[0]);
      (if u.skipped then 0 else u.clock.deltaTime) + DeltaSum(u.clock, samples[1..])
  }

  /** The total of the ticks that passed between the second and third
      reading of each accepted poll of a run. */
  function LostSum(c: Clock, samples: seq<Sample>): int
    decreases |samples|
  {
    if |samples| == 0 then
      0
    else
      var u := Step(c, samples[0]);
      (if u.skipped then 0 else samples[0].t3 - samples[0].t2) + LostSum(u.clock, samples[1..])
  }

  /** A clock that never runs backwards from `from` also never runs
      backwards from any earlier point. */
  lemma NonDecreasingFromEarlier(from: int, earlier: int, samples: seq<Sample>)
    requires earlier <= from && NonDecreasing(from, samples)
    ensures NonDecreasing(earlier, samples)
  {
  }

  /** The last state of `States` is the state `Run` ends in. */
  lemma {:induction false} StatesEndInRun(c: Clock, samples: seq<Sample>)
    ensures States(c, samples)[|samples|] == Run(c, samples).clock
    decreases |samples|
  {
    if |samples| != 0 {
      StatesEndInRun(Step(c, samples[0]).clock, samples[1..]);
    }
  }

  /** With a clock that never runs backwards, `last` never decreases across
      any sequence of `update()` calls: each state's `last` is at most that
      of every later state. */
  lemma {:induction false} LastNeverDecreases(c: Clock, samples: seq<Sample>)
    requires NonDecreasing(c.last, samples)
    ensures forall i, j :: 0 <= i <= j < |States(c, samples)| ==> States(c, samples)[i].last <= States(c, samples)[j].last
    decreases |samples|
  {
    if |samples| != 0 {
      var s := samples[0];
      var u := Step(c, s);
      UpdateMonotone(c, s.t1, s.t2, s.t3);
      NonDecreasingFromEarlier(s.t3, u.clock.last, samples[1..]);
      LastNeverDecreases(u.clock, samples[1..]);
      var st := States(c, samples);
      var tail := States(u.clock, samples[1..]);
      assert st == [c] + tail;
      forall i, j | 0 <= i <= j < |st|
        ensures st[i].last <= st[j].last
      {
        if i == 0 && j > 0 {
          assert st[j] == tail[j - 1];
          assert tail[0].last <= tail[j - 1].last;
        } else if i > 0 {
          assert st[i] == tail[i - 1] && st[j] == tail[j - 1];
        }
      }
    }
  }

  /** A run in which every poll skipped leaves the clock exactly as it was. */
  lemma {:induction false} AllSkippedLeavesClock(c: Clock, samples: seq<Sample>)
    requires forall i :: 0 <= i < |samples| ==> Run(c, samples).skips[i]
    ensures Run(c, samples).clock == c
    decreases |samples|
  {
    if |samples| != 0 {
      var u := Step(c, samples[0]);
      assert Run(c, samples).skips[0] == u.skipped;
      assert u.clock == c;
      forall i | 0 <= i < |samples| - 1
        ensures Run(u.clock, samples[1..]).skips[i]
      {
        assert Run(c, samples).skips[i + 1] == Run(u.clock, samples[1..]).skips[i];
      }
      AllSkippedLeavesClock(u.clock, samples[1..]);
    }
  }

  /** With a clock that never runs backwards, once any poll of a run has
      been accepted the stored delta is at least one frame length. */
  lemma {:induction false} AcceptedDeltaAtLeastCpf(c: Clock, samples: seq<Sample>)
    requires NonDecreasing(c.last, samples)
    requires exists i :: 0 <= i < |samples| && !Run(c, samples).skips[i]
    ensures Run(c, samples).clock.deltaTime >= c.cpf
    decreases |samples|
  {
    var s := samples[0];
    var u := Step(c, s);
    var rest := Run(u.clock, samples[1..]);
    UpdateMonotone(c, s.t1, s.t2, s.t3);
    NonDecreasingFromEarlier(s.t3, u.clock.last, samples[1..]);
    if exists i :: 0 <= i < |samples| - 1 && !rest.skips[i] {
      AcceptedDeltaAtLeastCpf(u.clock, samples[1..]);
    } else {
      forall i | 0 <= i < |samples| - 1
        ensures rest.skips[i]
      {
        assert Run(c, samples).skips[i + 1] == rest.skips[i];
      }
      AllSkippedLeavesClock(u.clock, samples[1..]);
      assert Run(c, samples).skips[0] == u.skipped;
    }
  }

  /** A clock whose frame length is zero or less, as a negative rate gives,
      accepts every poll of a run on a clock that never runs backwards: each
      accept moves `last` only up to the readings already taken. */
  lemma {:induction false} NonPositiveFrameNeverSkips(c: Clock, samples: seq<Sample>)
    requires c.cpf <= 0 && NonDecreasing(c.last, samples)
    ensures forall i :: 0 <= i < |samples| ==> !Run(c, samples).skips[i]
    decreases |samples|
  {
    if |samples| != 0 {
      var s := samples[0];
      var u := Step(c, s);
      UpdateMonotone(c, s.t1, s.t2, s.t3);
      NonDecreasingFromEarlier(s.t3, u.clock.last, samples[1..]);
      NonPositiveFrameNeverSkips(u.clock, samples[1..]);
      forall i | 0 <= i < |samples|
        ensures !Run(c, samples).skips[i]
      {
        if i > 0 {
          assert Run(c, samples).skips[i] == Run(u.clock, samples[1..]).skips[i - 1];
        }
      }
    }
  }

  /** Every tick by which a run moved `last` is either part of a stored
      delta or was read between the second and third sample of an accepted
      poll. On a clock that never runs backwards the lost part is never
      negative, so the deltas never add up to more than the elapsed time;
      when each poll reads the clock once, nothing is lost. */
  lemma {:induction false} ElapsedTicksAccounted(c: Clock, samples: seq<Sample>)
    ensures Run(c, samples).clock.last - c.last == DeltaSum(c, samples) + LostSum(c, samples)
    ensures NonDecreasing(c.last, samples) ==> 0 <= LostSum(c, samples)
    ensures SingleReading(samples) ==> LostSum(c, samples) == 0
    decreases |samples|
  {
    if |samples| != 0 {
      var s := samples[0];
      var u := Step(c, s);
      ElapsedTicksAccounted(u.clock, samples[1..]);
      if NonDecreasing(c.last, samples) {
        UpdateMonotone(c, s.t1, s.t2, s.t3);
        NonDecreasingFromEarlier(s.t3, u.clock.last, samples[1..]);
      }
      if SingleReading(samples) {
        assert SingleReading(samples[1..]) by {
          forall i | 0 <= i < |samples| - 1
            ensures samples[1..][i].t1 == samples[1..][i].t2 == samples[1..][i].t3
          {
            assert samples[1..][i] == samples[i + 1];
          }
        }
        assert s.t2 == s.t3 by { assert s == samples[0]; }
      }
    }
  }

  /** Running two stretches of polls one after the other is running their
      concatenation. */
  lemma {:induction false} RunAppend(c: Clock, a: seq<Sample>, b: seq<Sample>)
    ensures Run(c, a + b).skips == Run(c, a).skips + Run(Run(c, a).clock, b).skips
    ensures Run(c, a + b).clock == Run(Run(c, a).clock, b).clock
    decreases |a|
  {
    if |a| != 0 {
      var u := Step(c, a[0]);
      assert (a + b)[0] == a[0];
      assert (a + b)[1..] == a[1..] + b;
      RunAppend(u.clock, a[1..], b);
    } else {
      assert a + b == b;
    }
  }

  /** The busy-poll gate of the render loop: poll with successive samples
      until one is accepted or the samples run out. `spins` counts the
      skipped polls; every one of them was less than a frame after `last`,
      and the clock they leave is the clock `Run` computes. */
  method WaitForFrame(c: Clock, samples: seq<Sample>) returns (spins: nat, accepted: bool, next: Clock)
    ensures spins <= |samples|
    ensures forall i :: 0 <= i < spins ==> samples[i].t1 - c.last < c.cpf
    ensures accepted ==> spins < |samples| && samples[spins].t1 - c.last >= c.cpf
    ensures accepted ==> next.last == samples[spins].t3 && next.deltaTime == samples[spins].t2 - c.last
    ensures !accepted ==> spins == |samples| && next == c
    ensures next.cpf == c.cpf
    ensures accepted ==> Run(c, samples[..spins + 1]).skips == seq(spins, _ => true) + [false]
    ensures next == Run(c, samples[..spins + (if accepted then 1 else 0)]).clock
  {
    spins := 0;
    while spins < |samples| && Step(c, samples[spins]).skipped
      invariant spins <= |samples|
      invariant forall i :: 0 <= i < spins ==> samples[i].t1 - c.last < c.cpf
      invariant Run(c, samples[..spins]) == RunResult(seq(spins, _ => true), c)
    {
      RunAppend(c, samples[..spins], [samples[spins]]);
      assert samples[..spins + 1] == samples[..spins] + [samples[spins]];
      spins := spins + 1;
    }
    if spins < |samples| {
      var u := Step(c, samples[spins]);
      RunAppend(c, samples[..spins], [samples[spins]]);
      assert samples[..spins + 1] == samples[..spins] + [samples[spins]];
      accepted, next := true, u.clock;
    } else {
      accepted, next := false, c;
    }
  }

  /** The end-to-end scenario of a 60-frames-per-second clock on a
      1000-ticks-per-second counter: the frame length is 16 ticks; polls
      5, 10 and 15 ticks after construction skip, the poll at 20 ticks
      proceeds, and `getDeltaTime()` then reports 0.020 seconds. */
  lemma SixtyFpsScenario(t0: int)
    ensures New(1000, 60.0, t0).cpf == 16
    ensures Run(New(1000, 60.0, t0), Readings(t0)).skips == [true, true, true, false]
    ensures Run(New(1000, 60.0, t0), Readings(t0)).clock.last == t0 + 20
    ensures DeltaSeconds(Run(New(1000, 60.0, t0), Readings(t0)).clock) == 0.020
  {
    var c := New(1000, 60.0, t0);
    var s := Readings(t0);
    assert c.cpf == 16 && c.last == t0;
    var c4 := Clock(16, t0 + 20, 20);
    assert Run(c4, s[4..]) == RunResult([], c4);
    assert Run(c, s[3..]) == RunResult([false], c4) by {
      assert s[3..][1..] == s[4..];
    }
    assert Run(c, s[2..]) == RunResult([true, false], c4) by {
      assert s[2..][1..] == s[3..];
    }
    assert Run(c, s[1..]) == RunResult([true, true, false], c4) by {
      assert s[1..][1..] == s[2..];
    }
    assert Run(c, s) == RunResult([true, true, true, false], c4);
  }

  /** Single-reading polls at 5, 10, 15 and 20 ticks after `t0`. */
  function Readings(t0: int): seq<Sample>
  {
    [Sample(t0 + 5, t0 + 5, t0 + 5), Sample(t0 + 10, t0 + 10, t0 + 10),
     Sample(t0 + 15, t0 + 15, t0 + 15), Sample(t0 + 20, t0 + 20, t0 + 20)]
  }
}
