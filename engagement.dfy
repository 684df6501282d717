/** The engagement: one ship, one turret, the projectiles fired so far and the tick
    counter, advanced one tick at a time in the order log, turn, fire, move, collide. */
module Engagement {
  import opened Config
  import opened Vectors
  import opened Registry
  import opened Schedule
  import opened Targeting
  import opened Ships

  /** `p` is the projectile created for aim point `a`. */
  predicate FiredAt(p: Projectile, a: AimPoint) {
    p.position == Vec2(a.x, a.y) && p.arrival == a.arrival && p.radius == PROJECTILE_RADIUS
  }

  /** Shot `j` of `volley` is the projectile created for the aim point computed on tick `t`
      from the logged ship state `pos`, `vel`, `acc` with scatter draw `draws[j]`. */
  predicate VolleyAimed(volley: seq<Projectile>, t: int, pos: Vec2, vel: Vec2, acc: Vec2,
                        draws: seq<Scatter>)
    decreases |volley|
  {
    |volley| <= |draws| &&
    (|volley| > 0 ==>
      var n := |volley| - 1;
      VolleyAimed(volley[..n], t, pos, vel, acc, draws) &&
      FiredAt(volley[n], Turret.Aim(t, pos, vel, acc, draws[n])))
  }

  /** Any single shot of an aimed volley: shot `j` was fired at the aim point of draw `j`. */
  lemma {:induction false} VolleyAimedShot(volley: seq<Projectile>, t: int, pos: Vec2, vel: Vec2,
                                           acc: Vec2, draws: seq<Scatter>, j: nat)
    requires VolleyAimed(volley, t, pos, vel, acc, draws) && j < |volley|
    ensures j < |draws| && FiredAt(volley[j], Turret.Aim(t, pos, vel, acc, draws[j]))
    decreases |volley|
  {
    var n := |volley| - 1;
    if j < n {
      VolleyAimedShot(volley[..n], t, pos, vel, acc, draws, j);
      assert volley[..n][j] == volley[j];
    }
  }

  /** The shots of a volley share the delayed snapshot, so shots with the same scatter
      draws (in particular with the scatter disabled) land on the same point, and the whole
      volley arrives together. */
  lemma SameDrawsSameAim(volley: seq<Projectile>, t: int, pos: Vec2, vel: Vec2, acc: Vec2,
                         draws: seq<Scatter>, i: nat, j: nat)
    requires VolleyAimed(volley, t, pos, vel, acc, draws) && i < |volley| && j < |volley|
    ensures volley[i].arrival == volley[j].arrival
    ensures i < |draws| && j < |draws| && draws[i] == draws[j] ==>
      volley[i].position == volley[j].position
  {
    VolleyAimedShot(volley, t, pos, vel, acc, draws, i);
    VolleyAimedShot(volley, t, pos, vel, acc, draws, j);
  }

  /** `r` is a whole number of ticks. */
  predicate OnTick(r: real) {
    r.Floor as real == r
  }

  /** Resolution compares the arrival with the tick for equality, so projectiles whose
      arrival is not a whole tick (as with a PROJECTILE_SPEED that does not divide
      TIME_DELAY_IN_TICKS) are never resolved on any tick and never hit. */
  lemma {:induction false} OffTickNeverResolved(live: seq<Projectile>, t: int, shipPos: Vec2)
    requires forall k :: 0 <= k < |live| ==> !OnTick(live[k].arrival)
    ensures Unresolved(live, t as real) == live
    ensures HitRecords(live, t, shipPos) == []
  {
    if live != [] {
      var n := |live| - 1;
      OffTickNeverResolved(live[..n], t, shipPos);
      assert live[n].arrival != t as real by {
        assert (t as real).Floor as real == t as real;
      }
      assert live[..n] + [live[n]] == live;
    }
  }

  /** `st` lists the current statuses of `ps`, in order. */
  ghost predicate StatusesAre(ps: seq<Projectile>, st: seq<Status>)
    reads ps`status
  {
    |st| == |ps| && forall i :: 0 <= i < |ps| ==> ps[i].status == st[i]
  }

  /** When `st` are the statuses of `ps`, the live sublist holds exactly the projectiles
      of `ps` whose status is Live. */
  lemma LiveSublist(ps: seq<Projectile>, st: seq<Status>)
    requires StatusesAre(ps, st)
    ensures forall k :: 0 <= k < |LiveFilter(ps, st)| ==>
      LiveFilter(ps, st)[k] in ps && LiveFilter(ps, st)[k].status == Live
    ensures forall i :: 0 <= i < |ps| ==> (ps[i] in LiveFilter(ps, st) <==> st[i] == Live)
  {
    LiveFilterKeepsLive(ps, st);
    forall k | 0 <= k < |LiveFilter(ps, st)|
      ensures LiveFilter(ps, st)[k] in ps && LiveFilter(ps, st)[k].status == Live
    {
      var j := LiveSource(ps, st, k);
    }
    forall i | 0 <= i < |ps| && ps[i] in LiveFilter(ps, st)
      ensures st[i] == Live
    {
      var k :| 0 <= k < |LiveFilter(ps, st)| && LiveFilter(ps, st)[k] == ps[i];
      var j := LiveSource(ps, st, k);
    }
  }

  /** With statuses `st`, every projectile of `ps` arrives on a whole tick and is live
      exactly until its arrival tick has been processed, when tick `t` is about to be
      processed. */
  predicate ArrivalsTracked(ps: seq<Projectile>, st: seq<Status>, t: int) {
    |st| == |ps| &&
    forall i :: 0 <= i < |ps| ==>
      OnTick(ps[i].arrival) && (st[i] == Live <==> ps[i].arrival >= t as real)
  }

  /** Statuses for `n` freshly fired projectiles. */
  function AllLive(n: nat): (st: seq<Status>)
    ensures |st| == n && forall k :: 0 <= k < n ==> st[k] == Live
  {
    seq(n, _ => Live)
  }

  /** Appending live projectiles appends Live to the statuses. */
  lemma StatusesAppend(ps: seq<Projectile>, st: seq<Status>, volley: seq<Projectile>)
    requires StatusesAre(ps, st)
    requires forall j :: 0 <= j < |volley| ==> volley[j].status == Live
    ensures StatusesAre(ps + volley, st + AllLive(|volley|))
  {
    var qs, qst := ps + volley, st + AllLive(|volley|);
    forall i | 0 <= i < |qs|
      ensures qs[i].status == qst[i]
    {
      if i >= |ps| {
        assert qs[i] == volley[i - |ps|] && qst[i] == Live;
      } else {
        assert qs[i] == ps[i] && qst[i] == st[i];
      }
    }
  }

  /** Appending live projectiles that arrive on a whole tick not yet processed keeps the
      arrivals tracked. */
  lemma VolleyTracked(ps: seq<Projectile>, st: seq<Status>, volley: seq<Projectile>, t: int)
    requires ArrivalsTracked(ps, st, t)
    requires forall j :: 0 <= j < |volley| ==>
      OnTick(volley[j].arrival) && volley[j].arrival >= t as real
    ensures ArrivalsTracked(ps + volley, st + AllLive(|volley|), t)
  {
    var qs, qst := ps + volley, st + AllLive(|volley|);
    forall i | 0 <= i < |qs|
      ensures OnTick(qs[i].arrival) && (qst[i] == Live <==> qs[i].arrival >= t as real)
    {
      if i >= |ps| {
        assert qs[i] == volley[i - |ps|] && qst[i] == Live;
      } else {
        assert qs[i] == ps[i] && qst[i] == st[i];
      }
    }
  }

  /** Resolving, on tick `t`, exactly the live projectiles that arrive on `t` (statuses
      `st0` before, `st1` after) moves the tracking on to tick t + 1: a live projectile
      arriving later is still live, and since arrivals fall on whole ticks it arrives no
      earlier than t + 1. */
  lemma ResolutionTracked(ps: seq<Projectile>, st0: seq<Status>, st1: seq<Status>, t: int)
    requires ArrivalsTracked(ps, st0, t) && |st1| == |ps|
    requires forall i :: 0 <= i < |ps| ==>
      if st0[i] == Live && ps[i].arrival == t as real then st1[i] != Live else st1[i] == st0[i]
    ensures ArrivalsTracked(ps, st1, t + 1)
  {
    forall i | 0 <= i < |ps|
      ensures st1[i] == Live <==> ps[i].arrival >= (t + 1) as real
    {
      var a := ps[i].arrival;
      if a > t as real {
        assert a.Floor as real == a;
        assert a.Floor > t;
      }
    }
  }

  /** Statuses `st` of `ps` after collision resolution, given the statuses `st0` before:
      the projectiles of the live list `live0` that arrive on `t` are resolved, those that
      do not are still live, and the rest keep their status. */
  lemma ResolvedStatuses(ps: seq<Projectile>, st0: seq<Status>, st: seq<Status>,
                         live0: seq<Projectile>, t: real, shipPos: Vec2)
    requires StatusesAre(ps, st) && |st0| == |ps|
    requires forall i :: 0 <= i < |ps| ==> (ps[i] in live0 <==> st0[i] == Live)
    requires forall i :: 0 <= i < |ps| && st0[i] != Live ==> ps[i].status == st0[i]
    requires forall k :: 0 <= k < |live0| ==>
      live0[k].status == if live0[k].arrival == t then Outcome(shipPos, live0[k].position) else Live
    ensures forall i :: 0 <= i < |ps| ==>
      if st0[i] == Live && ps[i].arrival == t then st[i] != Live else st[i] == st0[i]
  {
    forall i | 0 <= i < |ps| && st0[i] == Live
      ensures if ps[i].arrival == t then st[i] != Live else st[i] == Live
    {
      var k :| 0 <= k < |live0| && live0[k] == ps[i];
    }
  }

  /** Collision resolution on tick `t` over a live list made of `settled` followed by
      `volley`, none of which arrives on `t`: the settled projectiles arriving on `t` are
      resolved, and every other projectile of either part is still live. */
  lemma SplitResolution(settled: seq<Projectile>, volley: seq<Projectile>, t: real, shipPos: Vec2)
    requires forall j :: 0 <= j < |volley| ==> volley[j].arrival != t
    requires forall k :: 0 <= k < |settled + volley| ==>
      (settled + volley)[k].status
        == if (settled + volley)[k].arrival == t
           then Outcome(shipPos, (settled + volley)[k].position) else Live
    ensures forall k :: 0 <= k < |settled| ==>
      settled[k].status
        == if settled[k].arrival == t then Outcome(shipPos, settled[k].position) else Live
    ensures forall j :: 0 <= j < |volley| ==> volley[j].status == Live
  {
    forall k | 0 <= k < |settled|
      ensures settled[k].status
        == if settled[k].arrival == t then Outcome(shipPos, settled[k].position) else Live
    {
      assert (settled + volley)[k] == settled[k];
    }
    forall j | 0 <= j < |volley|
      ensures volley[j].status == Live
    {
      assert (settled + volley)[|settled| + j] == volley[j];
    }
  }

  class Simulation {
    const ship: Ship
    const turret: Turret
    /** Every projectile fired so far, in firing order. */
    var projectiles: seq<Projectile>
    /** The projectiles not yet resolved, in firing order. */
    var liveProjectiles: seq<Projectile>
    var tick: nat
    /** The statuses of `projectiles`, in order. */
    ghost var statuses: seq<Status>

    /** The ship has logged `n` states and its next course change is the one due after
        `n` ticks. */
    ghost predicate ShipAt(n: nat)
      reads ship`posHistory, ship`velocityHistory, ship`accelerationHistory
      reads ship`accelerationVector, ship`turnDirection, ship`nextCourseChange
    {
      ship.Valid() && |ship.posHistory| == n && ship.nextCourseChange == NextCourseChange(n)
    }

    /** The turret's schedule and the number of projectiles fired are those after `n`
        ticks. */
    ghost predicate ScheduleAt(n: nat)
      reads this`projectiles, turret`nextShotTick
    {
      turret.nextShotTick == ScheduledShot(n) as real &&
      |projectiles| == VOLLEY_SIZE * VolleysBefore(n)
    }

    /** The live list is the live sublist of all projectiles, and exactly those that arrive
        on tick `t` or later are live. */
    ghost predicate RegistryAt(t: nat)
      reads this`projectiles, this`liveProjectiles, this`statuses, projectiles`status
    {
      StatusesAre(projectiles, statuses) &&
      liveProjectiles == LiveFilter(projectiles, statuses) &&
      ArrivalsTracked(projectiles, statuses, t)
    }

    /** The state when tick `tick` is about to be processed. */
    ghost predicate Valid()
      reads this, ship, turret, projectiles
    {
      ShipAt(tick) && ScheduleAt(tick) && RegistryAt(tick)
    }

    /** The set-up of `main`: the ship in the middle of the screen, a fresh turret, no
        projectiles, tick 0. */
    constructor ()
      ensures Valid() && fresh(ship) && fresh(turret)
      ensures ship.position == Vec2(800.0, 600.0) && tick == 0
      ensures ship.velocity == Vec2(100.0, 0.0)
      ensures ship.accelerationVector == Vec2(ACCELERATION as real, 0.0)
      ensures ship.turnDirection == 0
      ensures projectiles == [] && liveProjectiles == [] && ship.hitHistory == []
    {
      ship := new Ship(800.0, 600.0);
      turret := new Turret();
      projectiles := [];
      liveProjectiles := [];
      tick := 0;
      statuses := [];
    }

    /** The volley of the UPDATE block: VOLLEY_SIZE shots, each aimed from the ship's state
        as logged TIME_DELAY_IN_TICKS - 1 ticks ago with its own scatter draws, appended to
        both lists. */
    method FireVolley(draws: seq<Scatter>) returns (volley: seq<Projectile>)
      requires |ship.posHistory| == |ship.velocityHistory| == |ship.accelerationHistory| == tick + 1
      requires tick >= TIME_DELAY_IN_TICKS && |draws| == VOLLEY_SIZE
      modifies this`projectiles, this`liveProjectiles
      ensures projectiles == old(projectiles) + volley
      ensures liveProjectiles == old(liveProjectiles) + volley
      ensures |volley| == VOLLEY_SIZE
      ensures forall j :: 0 <= j < |volley| ==>
        fresh(volley[j]) && volley[j].status == Live &&
        volley[j].arrival == (tick + TIME_DELAY_IN_TICKS) as real
      ensures VolleyAimed(volley, tick, ship.posHistory[tick - TIME_DELAY_IN_TICKS + 1],
                          ship.velocityHistory[tick - TIME_DELAY_IN_TICKS + 1],
                          ship.accelerationHistory[tick - TIME_DELAY_IN_TICKS + 1], draws)
    {
      DelayedLookup(ship.posHistory, tick);
      DelayedLookup(ship.velocityHistory, tick);
      DelayedLookup(ship.accelerationHistory, tick);
      volley := [];
      for i := 0 to VOLLEY_SIZE
        invariant |volley| == i
        invariant projectiles == old(projectiles) + volley
        invariant liveProjectiles == old(liveProjectiles) + volley
        invariant forall j :: 0 <= j < i ==>
          fresh(volley[j]) && volley[j].status == Live &&
          volley[j].arrival == (tick + TIME_DELAY_IN_TICKS) as real
        invariant VolleyAimed(volley, tick, ship.posHistory[tick - TIME_DELAY_IN_TICKS + 1],
                              ship.velocityHistory[tick - TIME_DELAY_IN_TICKS + 1],
                              ship.accelerationHistory[tick - TIME_DELAY_IN_TICKS + 1], draws)
      {
        var aim := Turret.Aim(tick, Lookback(ship.posHistory, TIME_DELAY_IN_TICKS).value,
                              Lookback(ship.velocityHistory, TIME_DELAY_IN_TICKS).value,
                              Lookback(ship.accelerationHistory, TIME_DELAY_IN_TICKS).value,
                              draws[i]);
        var p := turret.Shoot(aim.x, aim.y, aim.arrival);
        projectiles := projectiles + [p];
        liveProjectiles := liveProjectiles + [p];
        assert (volley + [p])[..i] == volley;
        volley := volley + [p];
      }
    }

    /** Fire the volley and record the new projectiles as live: the live list stays the
        live sublist of all projectiles, with the whole volley still to arrive. */
    method Launch(draws: seq<Scatter>) returns (volley: seq<Projectile>)
      requires |ship.posHistory| == |ship.velocityHistory| == |ship.accelerationHistory| == tick + 1
      requires tick >= TIME_DELAY_IN_TICKS && |draws| == VOLLEY_SIZE
      requires RegistryAt(tick)
      modifies this`projectiles, this`liveProjectiles, this`statuses
      ensures RegistryAt(tick)
      ensures projectiles == old(projectiles) + volley
      ensures liveProjectiles == old(liveProjectiles) + volley
      ensures |volley| == VOLLEY_SIZE
      ensures forall j :: 0 <= j < |volley| ==>
        fresh(volley[j]) && volley[j].arrival == (tick + TIME_DELAY_IN_TICKS) as real
      ensures VolleyAimed(volley, tick, ship.posHistory[tick - TIME_DELAY_IN_TICKS + 1],
                          ship.velocityHistory[tick - TIME_DELAY_IN_TICKS + 1],
                          ship.accelerationHistory[tick - TIME_DELAY_IN_TICKS + 1], draws)
    {
      ghost var ps, st := projectiles, statuses;
      volley := FireVolley(draws);
      StatusesAppend(ps, st, volley);
      statuses := statuses + AllLive(|volley|);
      LiveFilterAppend(ps, st, volley, AllLive(|volley|));
      VolleyTracked(ps, st, volley, tick);
    }

    /** The firing part of the UPDATE block: when the turret's gate opens, fire a volley
        and re-arm the turret SHOT_DELAY_IN_TICKS later. The turret's schedule, the volley
        count and the live sublist carry over to the next tick. */
    method Fire(draws: seq<Scatter>) returns (volley: seq<Projectile>)
      requires ShipAt(tick + 1) && |draws| == VOLLEY_SIZE
      requires ScheduleAt(tick) && RegistryAt(tick)
      modifies this`projectiles, this`liveProjectiles, this`statuses, turret`nextShotTick
      ensures ScheduleAt(tick + 1) && RegistryAt(tick)
      ensures projectiles == old(projectiles) + volley
      ensures liveProjectiles == old(liveProjectiles) + volley
      ensures |volley| == if FiringTick(tick) then VOLLEY_SIZE else 0
      ensures forall j :: 0 <= j < |volley| ==>
        fresh(volley[j]) && volley[j].arrival == (tick + TIME_DELAY_IN_TICKS) as real
      ensures FiringTick(tick) ==>
        VolleyAimed(volley, tick, ship.posHistory[tick - TIME_DELAY_IN_TICKS + 1],
                    ship.velocityHistory[tick - TIME_DELAY_IN_TICKS + 1],
                    ship.accelerationHistory[tick - TIME_DELAY_IN_TICKS + 1], draws)
    {
      TurretStep(tick);
      volley := [];
      if turret.ShouldShoot(tick) {
        volley := Launch(draws);
        turret.nextShotTick := tick as real + SHOT_DELAY_IN_TICKS;
      }
    }

    /** The collision part of the UPDATE block: resolve the live projectiles arriving on
        this tick against the ship where it now is. The live list stays the live sublist of
        all projectiles, and the tracking moves on to the next tick. */
    method Collide()
      requires RegistryAt(tick)
      modifies ship`hitHistory, liveProjectiles`status, this`liveProjectiles, this`statuses
      ensures liveProjectiles == Unresolved(old(liveProjectiles), tick as real)
      ensures ship.hitHistory
           == old(ship.hitHistory) + HitRecords(old(liveProjectiles), tick, ship.position)
      ensures forall k :: 0 <= k < |old(liveProjectiles)| ==>
        old(liveProjectiles)[k].status
          == if old(liveProjectiles)[k].arrival == tick as real
             then Outcome(ship.position, old(liveProjectiles)[k].position) else Live
      ensures RegistryAt(tick + 1)
    {
      ghost var st0, live0 := statuses, liveProjectiles;
      LiveSublist(projectiles, st0);
      liveProjectiles := ship.CollisionCheck(liveProjectiles, tick);
      statuses := StatusesOf(projectiles);
      ResolvedStatuses(projectiles, st0, statuses, live0, tick as real, ship.position);
      ResolveKeepsLive(projectiles, st0, statuses, tick as real);
      ResolutionTracked(projectiles, st0, statuses, tick);
    }

    /** The ship's part of the UPDATE block before firing: log its state, then change
        course when one is due; `choice` is the random turn direction. */
    method LogAndSteer(choice: int)
      requires ShipAt(tick)
      requires choice == -1 || choice == 1
      modifies ship`posHistory, ship`velocityHistory, ship`accelerationHistory
      modifies ship`nextCourseChange, ship`turnDirection
      ensures ShipAt(tick + 1)
      ensures ship.posHistory == old(ship.posHistory) + [old(ship.position)]
      ensures ship.velocityHistory == old(ship.velocityHistory) + [old(ship.velocity)]
      ensures ship.accelerationHistory == old(ship.accelerationHistory) + [old(ship.accelerationVector)]
      ensures ship.turnDirection
           == if tick % TIME_DELAY_IN_TICKS == 0 then choice else old(ship.turnDirection)
    {
      ship.Log();
      CourseChangeStep(tick);
      var turn := ship.ShouldTurn(tick);
      if turn {
        ship.ChangeCourse(choice);
      }
    }

    /** The ship's part of the UPDATE block after firing: move it, resolve the live
        projectiles arriving on this tick against its new position, and count the tick.
        The live list is `settled`, the projectiles fired earlier, followed by `volley`,
        the ones just fired, none of which arrives on this tick. */
    method MoveAndCollide(rotated: Vec2, ghost settled: seq<Projectile>,
                          ghost volley: seq<Projectile>)
      requires ShipAt(tick + 1)
      requires IsRotationOf(rotated, ship.accelerationVector, TurnAngle(ship.turnDirection))
      requires RegistryAt(tick)
      requires liveProjectiles == settled + volley
      requires forall j :: 0 <= j < |volley| ==> volley[j].arrival != tick as real
      modifies ship`accelerationVector, ship`velocity, ship`position, ship`hitHistory
      modifies liveProjectiles`status, this`liveProjectiles, this`statuses, this`tick
      ensures tick == old(tick) + 1
      ensures ShipAt(tick)
      ensures ship.posHistory == old(ship.posHistory)
      ensures ship.velocityHistory == old(ship.velocityHistory)
      ensures ship.accelerationHistory == old(ship.accelerationHistory)
      ensures ship.accelerationVector == rotated
      ensures ship.velocity == old(ship.velocity).Plus(ship.accelerationVector.Scale(DT))
      ensures ship.position == old(ship.position).Plus(ship.velocity.Scale(DT))
      ensures liveProjectiles == Unresolved(settled, old(tick) as real) + volley
      ensures ship.hitHistory
           == old(ship.hitHistory) + HitRecords(settled, old(tick), ship.position)
      ensures forall k :: 0 <= k < |settled| ==>
        settled[k].status
          == if settled[k].arrival == old(tick) as real
             then Outcome(ship.position, settled[k].position) else Live
      ensures forall j :: 0 <= j < |volley| ==> volley[j].status == Live
      ensures RegistryAt(tick)
    {
      ship.Move(rotated);
      assert ShipAt(tick + 1);
      Collide();
      SplitResolution(settled, volley, tick as real, ship.position);
      NoneArriving(settled, volley, tick, ship.position);
      tick := tick + 1;
    }

    /** The UPDATE block up to firing: log the ship's state, change course when one is due
        (`choice` is the random turn direction), and fire when the turret's gate opens. The
        volley is aimed from the state logged TIME_DELAY_IN_TICKS - 1 ticks before this
        one. */
    method LogSteerAndFire(choice: int, draws: seq<Scatter>) returns (volley: seq<Projectile>)
      requires ShipAt(tick) && ScheduleAt(tick) && RegistryAt(tick)
      requires choice == -1 || choice == 1
      requires |draws| == VOLLEY_SIZE
      modifies this`projectiles, this`liveProjectiles, this`statuses, turret`nextShotTick
      modifies ship`posHistory, ship`velocityHistory, ship`accelerationHistory
      modifies ship`nextCourseChange, ship`turnDirection
      ensures ShipAt(tick + 1) && ScheduleAt(tick + 1) && RegistryAt(tick)
      ensures ship.posHistory == old(ship.posHistory) + [old(ship.position)]
      ensures ship.velocityHistory == old(ship.velocityHistory) + [old(ship.velocity)]
      ensures ship.accelerationHistory == old(ship.accelerationHistory) + [old(ship.accelerationVector)]
      ensures ship.turnDirection
           == if old(tick) % TIME_DELAY_IN_TICKS == 0 then choice else old(ship.turnDirection)
      ensures |volley| == if FiringTick(old(tick)) then VOLLEY_SIZE else 0
      ensures projectiles == old(projectiles) + volley
      ensures liveProjectiles == old(liveProjectiles) + volley
      ensures forall j :: 0 <= j < |volley| ==>
        fresh(volley[j]) && volley[j].arrival == (old(tick) + TIME_DELAY_IN_TICKS) as real
      ensures FiringTick(old(tick)) ==>
        VolleyAimed(volley, old(tick), old(ship.posHistory)[old(tick) - TIME_DELAY_IN_TICKS + 1],
                    old(ship.velocityHistory)[old(tick) - TIME_DELAY_IN_TICKS + 1],
                    old(ship.accelerationHistory)[old(tick) - TIME_DELAY_IN_TICKS + 1], draws)
    {
      LogAndSteer(choice);
      volley := Fire(draws);
    }

    /** One pass of the UPDATE block on tick `tick`: log the ship's state, change course
        when one is due (`choice` is the random turn direction), fire when the turret's gate
        opens (`draws` are the volley's scatter draws), move the ship (`rotated` is its
        acceleration turned through this tick's angle), resolve the live projectiles
        arriving on this tick, and count the tick. */
    method Step(choice: int, draws: seq<Scatter>, rotated: Vec2)
        returns (volley: seq<Projectile>)
      requires Valid()
      requires choice == -1 || choice == 1
      requires |draws| == VOLLEY_SIZE
      requires IsRotationOf(rotated, ship.accelerationVector, TurnAngle(
        if tick % TIME_DELAY_IN_TICKS == 0 then choice else ship.turnDirection))
      modifies this, ship, turret, liveProjectiles`status
      ensures Valid()
      ensures tick == old(tick) + 1
      ensures ship.posHistory == old(ship.posHistory) + [old(ship.position)]
      ensures ship.velocityHistory == old(ship.velocityHistory) + [old(ship.velocity)]
      ensures ship.accelerationHistory
           == old(ship.accelerationHistory) + [old(ship.accelerationVector)]
      ensures |volley| == if FiringTick(old(tick)) then VOLLEY_SIZE else 0
      ensures projectiles == old(projectiles) + volley
      ensures forall j :: 0 <= j < |volley| ==> fresh(volley[j])
      ensures FiringTick(old(tick)) ==>
        VolleyAimed(volley, old(tick), old(ship.posHistory)[old(tick) - TIME_DELAY_IN_TICKS + 1],
                    old(ship.velocityHistory)[old(tick) - TIME_DELAY_IN_TICKS + 1],
                    old(ship.accelerationHistory)[old(tick) - TIME_DELAY_IN_TICKS + 1], draws)
      ensures liveProjectiles == Unresolved(old(liveProjectiles), old(tick) as real) + volley
      ensures ship.hitHistory
           == old(ship.hitHistory) + HitRecords(old(liveProjectiles), old(tick), ship.position)
      ensures forall k :: 0 <= k < |old(liveProjectiles)| ==>
        old(liveProjectiles)[k].status
          == if old(liveProjectiles)[k].arrival == old(tick) as real
             then Outcome(ship.position, old(liveProjectiles)[k].position) else Live
      ensures forall j :: 0 <= j < |volley| ==> volley[j].status == Live
    {
      ghost var settled := liveProjectiles;
      volley := LogSteerAndFire(choice, draws);
      MoveAndCollide(rotated, settled, volley);
    }
  }
}
