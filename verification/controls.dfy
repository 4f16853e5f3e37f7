/** The settings the keyboard adjusts in game_of_life.py, game_of_life_v2.py and
    game_of_life_draft.py: the percentages of live and dead cells a random grid is drawn with,
    and the simulation speed in frames per second. */
module Controls {
  import opened Grids

  /** `max(0, min(100, p))`: a percentage pushed back into [0, 100]. */
  function ClampPercent(p: int): (r: int)
    ensures 0 <= r <= 100
    ensures 0 <= p <= 100 ==> r == p
    ensures p < 0 ==> r == 0
    ensures p > 100 ==> r == 100
  {
    Max(0, Min(100, p))
  }

  /** `max(1, s)`: a speed of at least one frame per second. */
  function AtLeastOne(s: int): (r: int)
    ensures r >= 1 && r >= s
    ensures s >= 1 ==> r == s
    ensures s < 1 ==> r == 1
  {
    Max(1, s)
  }

  /** The globals `p_alive`, `p_dead` and `simulation_speed`. */
  class Settings {
    var pAlive: int
    var pDead: int
    var speed: int

    /** The percentages are complementary and in range, and the speed is positive. */
    ghost predicate Valid()
      reads this
    {
      0 <= pAlive <= 100 && pAlive + pDead == 100 && speed >= 1
    }

    /** The start-up values: 7% alive, 93% dead, 10 frames per second. */
    constructor ()
      ensures Valid()
      ensures pAlive == 7 && pDead == 93 && speed == 10
    {
      pAlive, pDead, speed := 7, 93, 10;
    }

    /** `update_p_values(increment)`: the up and down keys move the alive percentage, clamped
        to [0, 100], and the dead percentage follows. Whatever the state before, the two are
        complementary and in range afterwards. */
    method UpdatePValues(increment: int)
      modifies this
      ensures pAlive == ClampPercent(old(pAlive) + increment) && pDead == 100 - pAlive
      ensures speed == old(speed)
      ensures 0 <= pAlive <= 100 && pAlive + pDead == 100
      ensures old(Valid()) ==> Valid()
    {
      pAlive := Max(0, Min(100, pAlive + increment));
      pDead := 100 - pAlive;
    }

    /** `update_simulation_speed(increment)`: the right and left keys move the speed, which
        never drops below one. */
    method UpdateSimulationSpeed(increment: int)
      modifies this
      ensures speed == AtLeastOne(old(speed) + increment) && speed >= 1
      ensures pAlive == old(pAlive) && pDead == old(pDead)
      ensures old(Valid()) ==> Valid()
    {
      speed := Max(1, speed + increment);
    }
  }
}
