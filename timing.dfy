/** The integer arithmetic of the timer display, of the dashboard's target
    time and of the grading verdict. JavaScript's `Math.floor(a / b)` and
    `a % b` are written out: Dafny's `/` with a positive divisor already
    rounds down, but JavaScript's `%` keeps the sign of the dividend. */
module Timing {

  /** `Math.floor(a / b)` for a positive divisor. */
  function FloorDiv(a: int, b: int): (q: int)
    requires b > 0
    ensures q * b <= a < q * b + b
  {
    a / b
  }

  /** JavaScript's `a % b` for a positive divisor: truncating, so the
      remainder takes the sign of the dividend. */
  function JsRem(a: int, b: int): (r: int)
    requires b > 0
    ensures a >= 0 ==> 0 <= r < b
    ensures a < 0 ==> -b < r <= 0
    ensures a >= 0 ==> r == a - FloorDiv(a, b) * b
    ensures a < 0 ==> r == -(-a - FloorDiv(-a, b) * b)
  {
    if a >= 0 then a % b else -((-a) % b)
  }

  /** Minutes and seconds as shown by the timer and the target label. */
  datatype Clock = Clock(minutes: int, seconds: int)

  /** `Math.floor(sec / 60)` minutes and `sec % 60` seconds. */
  function MinSec(sec: int): (c: Clock)
    ensures sec >= 0 ==> c.minutes >= 0 && 0 <= c.seconds < 60 && c.minutes * 60 + c.seconds == sec
  {
    Clock(FloorDiv(sec, 60), JsRem(sec, 60))
  }

  /** `Math.floor(elapsedMs / 1000)`: whole seconds elapsed. */
  function ElapsedSeconds(elapsedMs: int): (sec: int)
    ensures sec * 1000 <= elapsedMs < sec * 1000 + 1000
    ensures elapsedMs >= 0 ==> sec >= 0
  {
    FloorDiv(elapsedMs, 1000)
  }

  /** updateTimer: the mm:ss pair shown after `elapsedMs` milliseconds. */
  function TimerDisplay(elapsedMs: int): (c: Clock)
    ensures elapsedMs >= 0 ==>
              c.minutes * 60 + c.seconds == ElapsedSeconds(elapsedMs) && 0 <= c.seconds < 60
  {
    MinSec(ElapsedSeconds(elapsedMs))
  }

  /** With the clock running backwards the two halves do not recombine:
      one second before the start shows -1 minutes and -1 seconds. */
  lemma NegativeElapsedDisplay()
    ensures TimerDisplay(-1000) == Clock(-1, -1)
    ensures TimerDisplay(-1000).minutes * 60 + TimerDisplay(-1000).seconds != ElapsedSeconds(-1000)
  {
  }

  datatype Verdict = OnTarget | OverTime

  /** The grading verdict: on target when the whole seconds elapsed do not
      exceed the set's target, that is, exactly when fewer than `target + 1`
      full seconds have passed. */
  function GradeVerdict(elapsedMs: int, targetTimeSec: int): (v: Verdict)
    ensures v == OnTarget <==> elapsedMs < (targetTimeSec + 1) * 1000
  {
    if ElapsedSeconds(elapsedMs) <= targetTimeSec then OnTarget else OverTime
  }
}
