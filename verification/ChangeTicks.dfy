/** Change ticks: wrapping 32-bit counters compared inside a half-range window.

    Every tick is judged by its age relative to the world's current tick. While all ages stay
    below 2^31, the wrapping comparison of the program orders ticks exactly as time does.
  */
module ChangeTicks {
  const WRAP: nat := 0x1_0000_0000
  const HALF: nat := 0x8000_0000
  const MAX_CHANGE_AGE: nat := 0x4000_0000
  const TICK_CHECK_INTERVAL: nat := 0x400_0000

  type Tick = t: nat | t < 0x1_0000_0000

  const ZERO: Tick := 0

  function WrappingSub(a: Tick, b: Tick): Tick {
    if a >= b then a - b else a - b + WRAP
  }

  function WrappingSucc(a: Tick): Tick {
    if a == WRAP - 1 then 0 else a + 1
  }

  // The 32-bit pattern read as a two's complement number.
  function AsSigned(w: Tick): int {
    if w < HALF then w else w - WRAP
  }

  predicate IsNewerThan(t: Tick, lastRun: Tick) {
    AsSigned(WrappingSub(t, lastRun)) > 0
  }

  function Age(current: Tick, t: Tick): Tick {
    WrappingSub(current, t)
  }

  function CheckAgainst(t: Tick, current: Tick): Tick {
    if WrappingSub(current, t) > MAX_CHANGE_AGE then WrappingSub(current, MAX_CHANGE_AGE) else t
  }

  // Inside the window the wrapping comparison is the comparison of true ages.
  lemma NewerIsYounger(current: Tick, a: Tick, b: Tick)
    requires Age(current, a) < HALF && Age(current, b) < HALF
    ensures IsNewerThan(a, b) <==> Age(current, a) < Age(current, b)
  {
  }

  // Outside the window the comparison lies: half the clock makes a tick look old again.
  lemma WindowIsNeeded(current: Tick)
    ensures exists a: Tick, b: Tick ::
              Age(current, a) < Age(current, b) && Age(current, b) == HALF && !IsNewerThan(a, b)
  {
    var b: Tick := WrappingSub(current, HALF);
    assert Age(current, current) < Age(current, b) && !IsNewerThan(current, b);
  }

  /** `t` will still be inside the window when the next periodic clamp comes. */
  predicate Fresh(current: Tick, t: Tick) {
    Age(current, t) - current % TICK_CHECK_INTERVAL <= HALF - TICK_CHECK_INTERVAL
  }

  lemma FreshIsInWindow(current: Tick, t: Tick)
    requires Fresh(current, t)
    ensures Age(current, t) < HALF
  {
  }

  // A reader whose mark is no older than the clamp age gets the same answer after the clamp.
  lemma ClampKeepsAnswer(current: Tick, t: Tick, lastRun: Tick)
    requires Age(current, t) <= HALF && Age(current, lastRun) <= MAX_CHANGE_AGE
    ensures IsNewerThan(CheckAgainst(t, current), lastRun) <==> IsNewerThan(t, lastRun)
  {
  }

  /** The clamp changes no Changed/Added answer for a reader whose own mark is `lastRun` exactly
      when that mark is no older than the clamp age. */
  lemma ClampKeepsAnswersExactly(current: Tick, lastRun: Tick)
    requires Age(current, lastRun) < HALF
    ensures (forall t: Tick :: Age(current, t) < HALF ==>
               (IsNewerThan(CheckAgainst(t, current), lastRun) <==> IsNewerThan(t, lastRun)))
       <==> Age(current, lastRun) <= MAX_CHANGE_AGE
  {
    forall t: Tick | Age(current, t) < HALF
      ensures Age(current, lastRun) <= MAX_CHANGE_AGE ==>
                (IsNewerThan(CheckAgainst(t, current), lastRun) <==> IsNewerThan(t, lastRun))
    {
      NewerIsYounger(current, t, lastRun);
      NewerIsYounger(current, CheckAgainst(t, current), lastRun);
    }
    if Age(current, lastRun) > MAX_CHANGE_AGE {
      assert IsNewerThan(CheckAgainst(lastRun, current), lastRun) && !IsNewerThan(lastRun, lastRun);
    }
  }
}
