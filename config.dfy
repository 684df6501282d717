/** The configuration constants of the engagement, with the values the simulation uses.
    Python's integer constants stay integers; SHOT_DELAY and the quantities derived
    from it are floats there and are exact reals here. */
module Config {
  const SHIP_RADIUS: int := 20              // pixels (= metres)
  const ACCELERATION: int := 100            // pixels per second squared
  const ROTATION_SPEED: int := 45           // degrees per second

  const PROJECTILE_RADIUS: int := 20
  const PROJECTILE_SPEED: int := 1          // fraction of light speed
  const SHOT_DELAY: real := 0.5             // seconds between volleys
  const VOLLEY_SIZE: nat := 4               // projectiles per volley
  const MAX_SCATTER_DISTANCE: int := 25     // pixels per light second of delay

  const TIME_DELAY: int := 1                // light seconds between ship and turret
  const TICKS_IN_A_SEC: int := 60
  const TIME_DELAY_IN_TICKS: int := TICKS_IN_A_SEC * TIME_DELAY
  const SHOT_DELAY_IN_TICKS: real := TICKS_IN_A_SEC as real * SHOT_DELAY

  /** The fixed timestep of one tick, in seconds (Python's `1 / TICKS_IN_A_SEC`). */
  const DT: real := 1.0 / TICKS_IN_A_SEC as real
}
