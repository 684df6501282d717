# Turret vs ship: a Dafny model of the engagement core

`main.py` simulates a turret shooting at an evading ship from a distance where the time
delay matters. The turret only sees the ship's state as it was some ticks ago, and its
projectiles take time to cross the distance. This project models the tick-driven core of
that simulation in Dafny and proves what it does:

- the ship's **history log**, which the turret reads with a delay;
- the **course-change scheduler**;
- the turret's **firing gate and schedule**;
- the **lead-prediction aim** with bounded scatter;
- the **projectile registry** and **collision resolution** at each projectile's arrival tick;
- one **tick of the engagement** in the source's order: log, turn decision, fire, move,
  collide.

The modules follow the program's structure:

| file | module | models |
|---|---|---|
| `config.dfy` | `Config` | the constants of `main.py` |
| `vectors.dfy` | `Vectors` | pygame's `Vector2`, over exact reals |
| `schedule.dfy` | `Schedule` | closed forms of the course-change and volley schedules, and the one-tick lemmas linking them to the counters the code keeps |
| `registry.dfy` | `Registry` | the `Projectile` class, the hit test, hit records, and the list operations of collision resolution |
| `targeting.dfy` | `Targeting` | the `Turret` class and its aim |
| `ships.dfy` | `Ships` | the `Ship` class: history log, course changes, motion, collision check |
| `engagement.dfy` | `Engagement` | the state of `main` as a `Simulation` class whose `Step` is one pass of the UPDATE block |

Objects that the source updates in place are classes with mutable fields: `Ship`,
`Turret` and `Projectile`. `Simulation` is a class too: its fields are the local variables
of `main` (main.py:147-151), which the loop updates. Aiming and the firing decision are pure
functions. Collision resolution is a loop over a copy of the live list, with a loop
invariant tying it to the pure functions `Unresolved` (the live list it leaves) and
`HitRecords` (the hits it appends).

`Simulation.Valid` is the invariant of the engagement when tick `tick` is about to run:

- the ship has logged `tick` states;
- the course-change counter and the turret's `nextShotTick` equal their closed forms;
- `4 * VolleysBefore(tick)` projectiles have been fired;
- the live list is exactly the sublist of the fired projectiles whose status is live;
- a projectile is live exactly when its arrival tick has not yet been processed.

The model is built from these inputs:

- **Random draws.** The turn direction from `random.choice([-1, 1])` is an input
  (`choice`). The four `random.uniform(0, TIME_DELAY)` draws of each aim are a
  `Scatter` value per shot.
- **Rotation.** `Vector2.rotate` is an input too: the caller supplies the rotated
  acceleration, constrained by `Ships.IsRotationOf` to keep its length, and to be
  unchanged by a zero angle.
- **Distances.** `distance_to` is replaced by the squared distance, so no square root is
  needed.
- **Numbers.** Python floats are exact Dafny `real`s. Python ints are `int`.

The delayed lookup deserves a precise statement. Each tick logs the ship's state first
(main.py:164) and only then fires. So `history[-TIME_DELAY_IN_TICKS]` (main.py:171) on
tick `t` returns the snapshot logged on tick `t - TIME_DELAY_IN_TICKS + 1`, and it is in
range from tick `TIME_DELAY_IN_TICKS - 1` on. `Ships.DelayedLookup` states this index, and
`Engagement.Simulation.Step` aims from that snapshot.

## Model

| member | source | states |
|---|---|---|
| Schedule.ShotPeriodIsShotDelay | main.py:27 | SHOT_DELAY_IN_TICKS (a float, 60 * 0.5) is the whole number of ticks 30 |
| Schedule.NextCourseChange | main.py:39 | the value of `next_course_change` at the start of tick t is a multiple of the delay, in [t, t + D) |
| Schedule.CourseChangeStep | main.py:45-49 | `should_i_turn` called on ticks 0, 1, 2, ... answers yes exactly on multiples of TIME_DELAY_IN_TICKS, and the counter it advances is again the closed form on the next tick |
| Schedule.ScheduledShot | main.py:93 | the value of `next_shot_tick` at the start of tick t: D up to tick D, then the first firing tick not before t, less than a shot period ahead |
| Schedule.ShotScheduleStep | main.py:95-100 | the gate (tick >= D and tick >= next_shot_tick) opens exactly on the firing ticks, and re-arming 30 ticks later gives the closed form of the next tick |
| Schedule.VolleyTicks | main.py:175 | volleys fire on ticks D, D + 30, D + 60, ... and on no tick strictly between two of them |
| Schedule.VolleysBefore | main.py:170-174 | no volley is fired up to tick D |
| Schedule.VolleysBeforeStep | main.py:169-175 | the number of volleys fired grows by one exactly on the firing ticks |
| Schedule.TurretStep | main.py:169-175 | one tick of the turret's bookkeeping, in the real-valued terms the turret uses: gate, re-arming with SHOT_DELAY_IN_TICKS, and VOLLEY_SIZE more projectiles on a firing tick |
| Registry.Projectile.constructor | main.py:126-132 | a new projectile sits at (x, y), has radius PROJECTILE_RADIUS, the given arrival, and status live |
| Vectors.Dist2 | main.py:69 | the squared distance of `distance_to`: never negative, and zero between equal points |
| Registry.Hits | main.py:69 | the hit test `distance_to <= radius`, on squares: a projectile landing on the ship's centre is a hit |
| Registry.HitsIffWithinRadius | main.py:69 | the squared-distance test agrees with the source's test `distance <= radius` for every distance |
| Registry.BoundaryIsHit | main.py:69 | a projectile exactly one ship radius from the centre is a hit: the boundary is inclusive |
| Registry.Outcome | main.py:68-81 | a resolved projectile is never live again; it is hit exactly when within the radius, otherwise miss |
| Registry.Unresolved | main.py:67-81 | the live list after resolution on tick t is no longer than before and holds no projectile arriving on t |
| Registry.UnresolvedSnoc | main.py:67-81 | each projectile examined is dropped from the live list exactly when it arrives on t |
| Registry.UnresolvedMembers | main.py:67-81 | resolution keeps exactly the projectiles that do not arrive on t |
| Registry.UnresolvedAppend | main.py:67-81 | resolution keeps the relative order of the projectiles it does not remove |
| Registry.Remove | main.py:71 | `list.remove(x)` fails exactly when x is absent, and otherwise shortens the list by one |
| Registry.RemoveAt | main.py:71 | removing x from `a + [x] + b`, with no x in a, leaves `a + b` |
| Registry.RemoveFollowing | main.py:81 | the removal performed in the collision loop leaves the list without that projectile and otherwise unchanged |
| Registry.HitRecords | main.py:73-78 | the hit records appended on tick t are at most one per live projectile, each with that tick and an offset within the ship radius |
| Registry.HitRecordsSnoc | main.py:73-78 | a record is appended exactly for a projectile that arrives on t and hits, none for a miss |
| Registry.LiveFilter | main.py:173-174 | the live sublist is never longer than the full list |
| Registry.LiveSource | main.py:173-174 | every entry of the live sublist is a projectile of the full list whose status is live |
| Registry.LiveFilterKeepsLive | main.py:173-174 | every live projectile of the full list is in the live sublist |
| Registry.ResolveKeepsLive | main.py:66-81 | resolving the arriving projectiles turns the live sublist into its unresolved part, so the live list stays the live sublist of the full list |
| Registry.LiveFilterAppend | main.py:173-174 | appending live projectiles to both lists keeps the live list equal to the live sublist |
| Registry.NoneArriving | main.py:66-81 | projectiles that do not arrive on t are all kept and add no hit record |
| Targeting.Predict | main.py:104 | the constant-acceleration prediction: over no time it is the position itself, and with no acceleration it is `pos + v*t` |
| Targeting.PredictComposes | main.py:104 | the prediction is a constant-acceleration flow: predicting over t1 + t2 equals predicting over t1 and then over t2 |
| Targeting.ScatterError | main.py:106-107 | the per-axis error `(u1 + u2 - TIME_DELAY) * MAX_SCATTER_DISTANCE` is zero exactly when the draws sum to TIME_DELAY, and positive exactly when they sum to more |
| Targeting.ScatterBound | main.py:106-107 | draws in [0, TIME_DELAY] keep the per-axis error within TIME_DELAY * MAX_SCATTER_DISTANCE, and the error is zero exactly when the draws sum to TIME_DELAY |
| Targeting.Turret.constructor | main.py:90-93 | a new turret has shot delay SHOT_DELAY, volley VOLLEY_SIZE and `next_shot_tick` TIME_DELAY_IN_TICKS |
| Targeting.Turret.ShouldShoot | main.py:95-100 | never fires before tick D, whatever `next_shot_tick` holds; from then on fires exactly when tick >= next_shot_tick |
| Targeting.Turret.Aim | main.py:102-113 | the arrival tick is tick + TIME_DELAY_IN_TICKS, strictly after the firing tick |
| Targeting.Turret.Shoot | main.py:116-119 | a fresh, live projectile at the aim point with the given arrival |
| Targeting.AimWithinScatter | main.py:104-110 | the aim point lies within TIME_DELAY * MAX_SCATTER_DISTANCE of the prediction on each axis |
| Targeting.AimCentred | main.py:104-110 | with draws that cancel, the aim point is exactly `pos + v*T + 0.5*a*T*T` with T = TIME_DELAY + TIME_DELAY / PROJECTILE_SPEED |
| Targeting.AimAtStationaryTarget | main.py:102-113 | a stationary target is aimed at where it stands, and a shot fired on tick 60 arrives on tick 120 |
| Targeting.AimLeadsConstantVelocity | main.py:104-110 | a target moving at (100, 0) is led by (200, 0) |
| Ships.Lookback | main.py:171 | a negative index `s[-k]` succeeds exactly when the list has at least k entries |
| Ships.DelayedLookup | main.py:164-171 | with the log written for tick t, `[-TIME_DELAY_IN_TICKS]` succeeds exactly from tick D - 1 on and returns the entry logged on tick t - D + 1 |
| Ships.TurnAngle | main.py:60-61 | the turn angle is zero exactly when the ship is not turning |
| Ships.EulerStepVersusPrediction | main.py:59-64 | one semi-implicit Euler step moves the ship `0.5 * a * dt * dt` further than the constant-acceleration prediction the turret uses |
| Ships.Ship.constructor | main.py:32-43 | the initial ship state: velocity (100, 0), acceleration (100, 0), not turning, radius SHIP_RADIUS, empty logs |
| Ships.Ship.ShouldTurn | main.py:45-49 | answers yes exactly when tick equals `next_course_change`, and then advances it by TIME_DELAY_IN_TICKS, otherwise leaves it |
| Ships.Ship.Log | main.py:51-54 | appends exactly one copy of position, velocity and acceleration to the three logs, which stay aligned |
| Ships.Ship.ChangeCourse | main.py:56-57 | the turn direction becomes the chosen -1 or 1 |
| Ships.Ship.Move | main.py:59-64 | the acceleration is the rotated one and unchanged when not turning; the new velocity is `v + a'*dt` and the new position `p + v'*dt` with the new velocity |
| Ships.Ship.Resolve | main.py:68-80 | an arriving projectile is marked hit or miss against the ship's current position, and a hit record is appended exactly for a hit |
| Ships.Ship.Examine | main.py:67-81 | one turn of the collision loop keeps the loop invariant: the live list and the hit history are those after examining one more projectile, every examined projectile arriving on the tick carries its Outcome verdict, and no projectile arriving on another tick changes status |
| Ships.Ship.CollisionCheck | main.py:66-81 | every projectile arriving on the tick is marked by Outcome and removed from the live list; a record is appended per hit; the others keep their status and relative order |
| Engagement.VolleyAimedShot | main.py:170-172 | each shot of a volley was fired at the aim point computed from the delayed snapshot with that shot's scatter draws |
| Engagement.SameDrawsSameAim | main.py:170-172 | a volley arrives together, and shots with the same draws (scatter disabled) land on the same point |
| Engagement.OffTickNeverResolved | main.py:68 | projectiles whose arrival is not a whole tick are never resolved and never hit |
| Engagement.LiveSublist | main.py:173-174 | the live sublist holds exactly the projectiles whose status is live |
| Engagement.StatusesAppend | main.py:173-174 | appending a fresh volley appends its live statuses |
| Engagement.VolleyTracked | main.py:113 | a volley arriving on a whole tick not yet processed keeps every arrival tracked |
| Engagement.ResolutionTracked | main.py:66-81 | resolving the projectiles arriving on t leaves live exactly those arriving on t + 1 or later |
| Engagement.SplitResolution | main.py:66-81 | resolving a live list made of earlier projectiles followed by a volley that does not arrive yet resolves only earlier projectiles and leaves the volley live |
| Engagement.ResolvedStatuses | main.py:66-81 | after collision resolution the projectiles arriving on t are resolved and every other status is unchanged |
| Engagement.Simulation.constructor | main.py:147-151 | the engagement starts with a new ship and a new turret, the ship at the centre of the screen with velocity (100, 0), acceleration (100, 0) and no turn, no projectiles, tick 0, and the invariant holding |
| Engagement.Simulation.FireVolley | main.py:170-174 | VOLLEY_SIZE fresh live projectiles, each aimed from the snapshot logged on tick t - D + 1, arriving on t + D, appended to both lists |
| Engagement.Simulation.Launch | main.py:170-174 | firing a volley keeps the live list equal to the live sublist, with the whole volley still to arrive |
| Engagement.Simulation.Fire | main.py:169-175 | a volley of VOLLEY_SIZE exactly on firing ticks, nothing otherwise; the turret's schedule and the projectile count carry over to the next tick |
| Engagement.Simulation.Collide | main.py:178 | the live list loses exactly the projectiles arriving on the tick, each resolved against the moved ship; the tracking moves to the next tick |
| Engagement.Simulation.LogAndSteer | main.py:164-166 | position, velocity and acceleration are appended to the three logs, which stay aligned, and the turn direction changes to the choice exactly on multiples of TIME_DELAY_IN_TICKS and is kept otherwise |
| Engagement.Simulation.MoveAndCollide | main.py:177-178 | the ship moves by the Euler step; each earlier projectile arriving on the tick is marked hit or miss by Outcome against the moved ship and leaves the live list, with a record per hit; the other earlier projectiles and the new volley stay live and in order; the logs are untouched; the tick advances (main.py:242) |
| Engagement.Simulation.LogSteerAndFire | main.py:164-175 | the UPDATE block up to firing: position, velocity and acceleration appended to the three logs, course changed exactly on multiples of D, a volley of VOLLEY_SIZE fired exactly on firing ticks from the delayed snapshot and appended to both lists |
| Engagement.Simulation.Step | main.py:164-178 | one tick keeps the engagement invariant; appends the old position, velocity and acceleration to the three logs; fires VOLLEY_SIZE fresh live projectiles exactly on firing ticks, aimed from the snapshot of tick t - D + 1; every live projectile arriving on tick t is marked hit or miss by Outcome against the moved ship and leaves the live list, the others stay live and in order, the volley is appended; one hit record per arriving hit |

## Left out

- Rendering, the camera and grid, the HUD with its accuracy figure, the shrink animation
  of live projectiles, the event loop and the frame clock (main.py:141-145, 156-159,
  181-241): they are presentation and I/O. The tick counter's increment (main.py:242) is
  part of `Engagement.Simulation.Step`.
- Randomness: `random.choice` (main.py:57) and `random.uniform` (main.py:106-107) are
  parameters. Their distributions are not modelled.
- Ships.Ship.Move: `Vector2.rotate` (main.py:62) is not computed. The rotated acceleration
  is an input, constrained only to keep the acceleration's length and to equal the old
  acceleration when the angle is zero. The direction of the turn is not modelled.
- Ships.Ship.Resolve: `distance_to` needs a square root, so the hit record stores the
  squared offset. `Registry.HitsIffWithinRadius` shows that the squared hit test agrees
  with the source's test on the distance.
- Python floats are exact reals. IEEE rounding of `SHOT_DELAY_IN_TICKS`, of the arrival
  tick, and of the motion and aim arithmetic is not modelled. With the constants of
  main.py, every arrival is a whole tick.
- Engagement.Simulation.Step: the ship's new acceleration, velocity, position and turn
  direction are stated by `MoveAndCollide` and `LogSteerAndFire`, the two halves Step runs
  in order. Step itself does not repeat them.
- Engagement.Simulation (the `statuses` field): the model has one more field than `main` does, a ghost list
  of the projectiles' statuses. It exists only to state that the live list is the live
  sublist of all projectiles. Two helpers maintain it and model no line of main.py:
  `Registry.StatusesOf` reads the statuses of a list of projectiles, and
  `Engagement.AllLive` gives the statuses of a freshly fired volley.
- Ships.Ship.CollisionCheck: Python removes projectiles from the caller's list in place.
  Here the method returns the remaining list, and `Simulation` stores it back into its
  field. Statuses are still changed in place on the shared projectile objects.
- Health, damage, fuel and game-over screens do not exist in main.py.
