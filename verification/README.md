# GameClock frame limiter — a Dafny model

The repository is a series of OpenGL exercises. Its one component with
logic of its own is `GameClock` (Project4), a busy-poll frame limiter. The
render loop calls `update()` over and over and skips all per-frame work
while it answers `true`. The clock has three integer fields, all counted in
ticks of `std::clock()`:

- `cpf`, "clocks per frame": `CLOCKS_PER_SEC / fps` truncated to a whole
  number of ticks when the object is built;
- `last`: the tick reading of the last accepted frame;
- `deltaTime`: the ticks the last accepted frame lasted, 0 at first.

This project models that object as an immutable record
`GameClock.Clock(cpf, last, deltaTime)`. Each member function becomes a
pure function from one state to the next. Every reading of `std::clock()`
is a parameter supplied by the caller. `CLOCKS_PER_SEC` is the parameter
`cps`. `update()` reads the clock three times: once for the test, once
for the delta and once for the new `last`. So the model is
`Update(c, t1, t2, t3)`. `Poll(c, now)` is the special case where all
three readings are equal.

The module `ClockTrace` covers the render loop's use of the clock. It
defines runs of polls (`Run`, `States`) over readings of a clock that
never runs backwards (`NonDecreasing`). The method `WaitForFrame` models
the spin `if (gameClk.update()) continue;`.

Three behaviours of `GameClock.cpp` shape the model:

- The constructor does not guard against a non-positive `fps`. A zero
  `fps` divides to infinity, and converting that to `clock_t` is
  undefined, so `New` requires `fps != 0`. A negative `fps` is modelled as
  the C++ code computes it: truncation toward zero gives `cpf <= 0`, and
  then no poll of a run on an ordered clock ever skips
  (`NonPositiveFrameNeverSkips`).
- `update()` reads `std::clock()` three times: once for the test, once
  for the delta and once for the new `last`. The ticks between the second
  and third readings of an accepted poll belong to no frame. `UpdateSkew`
  and `ElapsedTicksAccounted` state this exactly.
- `getDeltaTime()` divides by a literal 1000, not by `CLOCKS_PER_SEC`. It
  gives seconds only on a platform where `CLOCKS_PER_SEC` is 1000, which
  is what the comments in `GameClock.cpp` and `GameClock.h` assume (`DeltaSecondsMatchesTickRate`).

## Model

| member | source | states |
|---|---|---|
| GameClock.TruncToInt | Project4/GameClock.cpp:7 | the `double` quotient goes into `clock_t` by truncation toward zero: a non-negative value lands within one below itself, a negative value within one above |
| GameClock.New | Project4/GameClock.cpp:6-10 | construction records the construction-time reading as `last` and zeroes `deltaTime`; for a positive rate `cpf` is the largest tick count whose `fps` frames fit into `cps` ticks; a negative rate gives `cpf <= 0` |
| GameClock.CpfBounds | Project4/GameClock.cpp:7 | `cpf * fps <= cps < (cpf + 1) * fps` for a positive rate; a non-positive frame length for a negative rate |
| GameClock.Update | Project4/GameClock.cpp:13-20 | the poll skips exactly when fewer than `cpf` ticks separate the first reading from `last`; a skip leaves the whole state untouched; an accept stores the elapsed ticks up to the second reading and moves `last` to the third; `cpf` never changes |
| GameClock.AcceptBoundaryInclusive | Project4/GameClock.cpp:14 | a poll exactly `cpf` ticks after `last` proceeds, one tick earlier skips |
| GameClock.SkipIdempotent | Project4/GameClock.cpp:14-19 | a skipped poll leaves a clock on which the same poll skips again, with the same result |
| GameClock.UpdateMonotone | Project4/GameClock.cpp:14-16 | with readings in order and no earlier than `last`, `last` does not decrease and stays within the third reading, and an accepted frame lasted at least `cpf` ticks |
| GameClock.UpdateSkew | Project4/GameClock.cpp:15-16 | an accepted poll moves `last` by the stored delta plus the ticks between its second and third readings |
| GameClock.Poll | Project4/GameClock.cpp:13-20 | the single-reading update: it skips exactly when the reading is under `cpf` ticks after `last`, leaving the state untouched; on acceptance the stored delta is exactly the distance between the previous and the new accepted frame, not the distance from the previous poll |
| GameClock.UpdateDecidedByFirstReading | Project4/GameClock.cpp:14-16 | the skip decision depends on the first reading only; on acceptance the three-reading delta and `last` are at least those of a single-reading poll at the first reading |
| GameClock.FirstPollAtConstruction | Project4/GameClock.cpp:6-14 | a poll at the construction instant skips exactly when `fps <= cps`, that is, when a frame lasts at least one tick |
| GameClock.NegativeRateNeverSkips | Project4/GameClock.cpp:7-14 | on a clock built with a negative rate, the first poll that does not read before the construction instant proceeds |
| GameClock.DeltaSecondsMatchesTickRate | Project4/GameClock.cpp:22-24 | `getDeltaTime()` equals the stored delta in seconds of the tick rate exactly when that rate is 1000 per second or the delta is zero |
| GameClock.DeltaSeconds | Project4/GameClock.cpp:22-24 | `getDeltaTime()` scaled back by 1000 is exactly the stored delta in ticks, and it is negative or zero exactly when the stored delta is |
| GameClock.Cpf | Project4/GameClock.cpp:26-28 | `getCPF()` reports the frame length: a poll that many ticks after `last` proceeds, one tick earlier skips |
| GameClock.Last | Project4/GameClock.cpp:30-32 | `getLast()` reports the reading the next frame is timed from: a poll one frame length after it proceeds with a delta of exactly one frame length, one tick earlier skips |
| GameClock.AccessorsObserveState | Project4/GameClock.cpp:26-32 | after construction `getCPF()` reports the truncated frame length and `getLast()` the construction instant; `getCPF()` reports the same value after any update, and `getLast()` reports the third reading after an accepted one |
| ClockTrace.Run | Project4/Project4.cpp:141-142 | a run of polls gives one answer per poll and never changes the frame length |
| ClockTrace.LastNeverDecreases | Project4/GameClock.cpp:14-16 | with a clock that never runs backwards, `last` never decreases across any sequence of updates, between any two states of the run |
| ClockTrace.AllSkippedLeavesClock | Project4/GameClock.cpp:14-19 | a run in which every poll skipped leaves the clock exactly as it started |
| ClockTrace.AcceptedDeltaAtLeastCpf | Project4/GameClock.cpp:14-15 | with a clock that never runs backwards, once any poll of a run was accepted the stored delta is at least `cpf` |
| ClockTrace.NonPositiveFrameNeverSkips | Project4/GameClock.cpp:7-16 | with a frame length of zero or less, as a negative rate gives, every poll of a run on a clock that never runs backwards proceeds |
| ClockTrace.ElapsedTicksAccounted | Project4/GameClock.cpp:15-16 | the ticks a run moves `last` by are the stored deltas plus the ticks lost between second and third readings; the lost part is never negative on an ordered clock and zero with single readings |
| ClockTrace.WaitForFrame | Project4/Project4.cpp:141-142 | the spin loop stops at the first poll at least `cpf` ticks after `last`; every earlier poll was under that; the state it ends with is that of the functional run over the same polls |
| ClockTrace.SixtyFpsScenario | Project4/GameClock.cpp:6-24 | at 60 frames per second and 1000 ticks per second the frame lasts 16 ticks; polls at +5, +10 and +15 ticks skip, the poll at +20 proceeds, and `getDeltaTime()` reports 0.020 |

## Left out

- `std::clock()` is not modelled: each reading is a parameter. Real
  CPU-time semantics and the platform's value of `CLOCKS_PER_SEC` are
  outside the model; `cps` is a parameter.
- GameClock.Update: the model does not wrap around at the width of
  `clock_t` (`long`, 32 bits on some platforms), because tick counts are
  unbounded integers here. A constructor quotient too large for `clock_t`
  is likewise not modelled.
- GameClock.New: `fps` is a `real`, and `cps / fps` is computed exactly
  before truncation; the rounding of `double` division is not modelled.
- GameClock.DeltaSeconds: returns an exact `real`; the rounding of the
  `float` division in `getDeltaTime()` is not modelled.
- A non-positive rate is not rejected, because `GameClock.cpp` has no
  such check; a zero rate is excluded by `New`'s precondition (see above).
- `GameWindow` (Project4/GameWindow.cpp, Project4/GameWindow.h): thin
  wrappers over GLFW/GLEW window and context calls with no logic of their
  own.
- Shader compilation, `CreateTriangle`, the draw calls of the render
  loops and the triangle bounce animation (Project2, Project3, Project4):
  OpenGL calls and floating-point animation with no logic of their own.
  Of the Project4 render loop, only the frame gate is modelled
  (`WaitForFrame`).
- Project1/Project1.cpp: window bring-up only.
