/** pulse_sequences.py: gradient pulse sequences for the Bloch solver. */
module PulseSequences {

  /**
   * `PGSE(t, dt1, dt2)`, the pulsed-gradient spin echo of Stejskal and
   * Tanner: the sign of the gradient at time `t` for pulses of length `dt1`
   * whose starts are `dt2` apart.
   */
  function PGSE(t: real, dt1: real, dt2: real): (g: int)
    ensures g == 1 || g == -1 || g == 0
    ensures g == 1 <==> t < dt1
  {
    if t < dt1 then 1
    else if t > dt2 && t < dt1 + dt2 then -1
    else 0
  }

  /** The first lobe wins even where it overlaps the window of the second. */
  lemma FirstLobeWins(t: real, dt1: real, dt2: real)
    requires dt2 < t < dt1
    ensures PGSE(t, dt1, dt2) == 1
  {
  }

  /** The second lobe is exactly the times at or after `dt1` strictly between `dt2` and `dt1 + dt2`. */
  lemma SecondLobe(t: real, dt1: real, dt2: real)
    ensures PGSE(t, dt1, dt2) == -1 <==> dt1 <= t && dt2 < t < dt1 + dt2
  {
  }

  /** The start of the second lobe is excluded: at `t = dt2` the gradient is off once the first lobe is over. */
  lemma SecondLobeOpensStrictly(dt1: real, dt2: real)
    requires dt2 >= dt1
    ensures PGSE(dt2, dt1, dt2) == 0
  {
  }

  /** The end of the second lobe is excluded: at `t = dt1 + dt2` the gradient is off. */
  lemma SecondLobeClosesStrictly(dt1: real, dt2: real)
    requires dt2 >= 0.0
    ensures PGSE(dt1 + dt2, dt1, dt2) == 0
  {
  }

  /** After both lobes the gradient is off. */
  lemma AfterEcho(t: real, dt1: real, dt2: real)
    requires t >= dt1 && t >= dt1 + dt2
    ensures PGSE(t, dt1, dt2) == 0
  {
  }

  /**
   * For non-overlapping pulses (0 < dt1 <= dt2) the second lobe is the first
   * one shifted by `dt2` with its sign reversed, in the open interval (0, dt1).
   */
  lemma Refocusing(t: real, dt1: real, dt2: real)
    requires 0.0 < t < dt1 <= dt2
    ensures PGSE(t + dt2, dt1, dt2) == -PGSE(t, dt1, dt2)
  {
  }
}
