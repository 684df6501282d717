/** Closed forms of the two tick schedules of the engagement: the ship's course changes
    and the turret's volleys, for a loop that steps ticks 0, 1, 2, ... without gaps. */
module Schedule {
  import opened Config

  /** The volley period in whole ticks. */
  const SHOT_PERIOD: int := 30

  /** SHOT_DELAY_IN_TICKS, a float in the source, is the whole number SHOT_PERIOD. */
  lemma ShotPeriodIsShotDelay()
    ensures SHOT_PERIOD as real == SHOT_DELAY_IN_TICKS
  {
  }

  /** The value `Ship.next_course_change` holds when tick `t` begins: the first multiple
      of the delay that is not in the past. */
  function NextCourseChange(t: nat): (n: int)
    ensures n % TIME_DELAY_IN_TICKS == 0
    ensures t <= n < t + TIME_DELAY_IN_TICKS
  {
    TIME_DELAY_IN_TICKS * ((t + TIME_DELAY_IN_TICKS - 1) / TIME_DELAY_IN_TICKS)
  }

  /** `should_i_turn` answers yes exactly on the multiples of the delay, and the counter it
      advances stays equal to the closed form on the next tick. */
  lemma CourseChangeStep(t: nat)
    ensures t == NextCourseChange(t) <==> t % TIME_DELAY_IN_TICKS == 0
    ensures NextCourseChange(t + 1)
         == if t == NextCourseChange(t) then NextCourseChange(t) + TIME_DELAY_IN_TICKS
            else NextCourseChange(t)
  {
    var n, m := NextCourseChange(t), NextCourseChange(t + 1);
    if t == n {
      assert m == t + TIME_DELAY_IN_TICKS by {
        assert (m - t) % TIME_DELAY_IN_TICKS == 0;
      }
    } else {
      assert t < n;
      assert (m - n) % TIME_DELAY_IN_TICKS == 0;
    }
  }

  /** The ticks on which the turret fires: the delay itself and every shot period after it. */
  predicate FiringTick(t: int) {
    t >= TIME_DELAY_IN_TICKS && (t - TIME_DELAY_IN_TICKS) % SHOT_PERIOD == 0
  }

  /** The value `Turret.next_shot_tick` holds when tick `t` begins. */
  function ScheduledShot(t: nat): (n: int)
    ensures n >= TIME_DELAY_IN_TICKS
    ensures t <= TIME_DELAY_IN_TICKS ==> n == TIME_DELAY_IN_TICKS
    ensures t > TIME_DELAY_IN_TICKS ==> t <= n < t + SHOT_PERIOD && FiringTick(n)
  {
    if t <= TIME_DELAY_IN_TICKS then TIME_DELAY_IN_TICKS
    else TIME_DELAY_IN_TICKS + SHOT_PERIOD * ((t - TIME_DELAY_IN_TICKS + SHOT_PERIOD - 1) / SHOT_PERIOD)
  }

  /** The gate and the re-arming of the turret together fire exactly on the firing ticks,
      and the re-armed value is again the closed form. */
  lemma ShotScheduleStep(t: nat)
    ensures (t >= TIME_DELAY_IN_TICKS && t >= ScheduledShot(t)) <==> FiringTick(t)
    ensures ScheduledShot(t + 1) == if FiringTick(t) then t + SHOT_PERIOD else ScheduledShot(t)
  {
    var n, m := ScheduledShot(t), ScheduledShot(t + 1);
    if t < TIME_DELAY_IN_TICKS {
    } else if FiringTick(t) {
      assert (m - t) % SHOT_PERIOD == 0;
    } else {
      assert t < n;
      assert (m - n) % SHOT_PERIOD == 0;
    }
  }

  /** Volleys fire on ticks D, D + 30, D + 60, ... and on no tick in between. */
  lemma VolleyTicks(k: nat, j: int)
    requires 0 < j < SHOT_PERIOD
    ensures FiringTick(TIME_DELAY_IN_TICKS + k * SHOT_PERIOD)
    ensures !FiringTick(TIME_DELAY_IN_TICKS + k * SHOT_PERIOD + j)
  {
  }

  /** How many volleys have been fired before tick `t` begins. */
  function VolleysBefore(t: nat): (n: nat)
    ensures t <= TIME_DELAY_IN_TICKS ==> n == 0
  {
    if t <= TIME_DELAY_IN_TICKS then 0 else (t - TIME_DELAY_IN_TICKS - 1) / SHOT_PERIOD + 1
  }

  /** The volley count grows by one exactly on the firing ticks. */
  lemma VolleysBeforeStep(t: nat)
    ensures VolleysBefore(0) == 0
    ensures VolleysBefore(t + 1) == VolleysBefore(t) + if FiringTick(t) then 1 else 0
  {
  }

  /** One tick of the turret's bookkeeping, in the terms `Turret` uses: the gate opens
      exactly on the firing ticks, re-arming SHOT_DELAY_IN_TICKS later gives the next
      scheduled shot, and a volley adds VOLLEY_SIZE projectiles to the count. */
  lemma TurretStep(t: nat)
    ensures (t >= TIME_DELAY_IN_TICKS && t as real >= ScheduledShot(t) as real) <==> FiringTick(t)
    ensures ScheduledShot(t + 1) as real
         == if FiringTick(t) then t as real + SHOT_DELAY_IN_TICKS else ScheduledShot(t) as real
    ensures VOLLEY_SIZE * VolleysBefore(t + 1)
         == VOLLEY_SIZE * VolleysBefore(t) + if FiringTick(t) then VOLLEY_SIZE else 0
  {
    ShotScheduleStep(t);
    VolleysBeforeStep(t);
    ShotPeriodIsShotDelay();
  }
}
