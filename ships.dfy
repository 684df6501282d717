/** The ship: its kinematic state, the per-tick history log the turret reads with a delay,
    the course-change counter, the semi-implicit Euler step and collision resolution. */
module Ships {
  import opened Config
  import opened Vectors
  import opened Registry
  import Targeting

  /** Python's negative index `s[-k]` (k >= 1): the k-th entry from the end, or
      IndexError (None) when the list is shorter than k. */
  function Lookback<T>(s: seq<T>, k: nat): (r: Option<T>)
    requires k >= 1
    ensures r.Some? <==> k <= |s|
  {
    if k <= |s| then Some(s[|s| - k]) else None
  }

  /** With one entry logged per tick from tick 0, and the log already written for tick `t`,
      the lookup `[-TIME_DELAY_IN_TICKS]` succeeds exactly from tick D - 1 on and returns
      the entry logged on tick t - D + 1. */
  lemma DelayedLookup<T>(log: seq<T>, t: nat)
    requires |log| == t + 1
    ensures Lookback(log, TIME_DELAY_IN_TICKS).Some? <==> t >= TIME_DELAY_IN_TICKS - 1
    ensures t >= TIME_DELAY_IN_TICKS - 1 ==>
      Lookback(log, TIME_DELAY_IN_TICKS) == Some(log[t - TIME_DELAY_IN_TICKS + 1])
  {
  }

  /** What `Vector2.rotate` promises about `r`, the vector `v` rotated by `degrees`: the
      length is kept, and a rotation by zero degrees changes nothing. The trigonometry
      itself is not modelled; the rotated vector is supplied by the caller. */
  predicate IsRotationOf(r: Vec2, v: Vec2, degrees: real) {
    r.Norm2() == v.Norm2() && (degrees == 0.0 ==> r == v)
  }

  /** The angle, in degrees, the acceleration turns through in one tick. */
  function TurnAngle(turnDirection: int): (degrees: real)
    ensures degrees == 0.0 <==> turnDirection == 0
  {
    ROTATION_SPEED as real * turnDirection as real * DT
  }

  /** One semi-implicit Euler step moves the ship half an `a * dt * dt` further than the
      constant-acceleration prediction over the same `dt`. */
  lemma EulerStepVersusPrediction(p: Vec2, v: Vec2, a: Vec2)
    ensures p.Plus(v.Plus(a.Scale(DT)).Scale(DT))
         == Targeting.Predict(p, v, a, DT).Plus(a.Scale(0.5 * DT * DT))
  {
  }

  /** Every projectile of `done` arriving on `tick` carries the verdict against the ship at
      `shipPos`. Written by recursion on the last element, so that a proof sees one verdict
      per unfolding rather than one per index. */
  ghost predicate ResolvedOn(done: seq<Projectile>, tick: int, shipPos: Vec2)
    reads done`status
    decreases |done|
  {
    done == [] ||
    (ResolvedOn(done[..|done| - 1], tick, shipPos) &&
     var p := done[|done| - 1];
     p.arrival == tick as real ==> p.status == Outcome(shipPos, p.position))
  }

  /** `ResolvedOn` says the same thing index by index. */
  lemma {:induction false} ResolvedOnAll(done: seq<Projectile>, tick: int, shipPos: Vec2)
    requires ResolvedOn(done, tick, shipPos)
    ensures forall k :: 0 <= k < |done| && done[k].arrival == tick as real ==>
      done[k].status == Outcome(shipPos, done[k].position)
    decreases |done|
  {
    if done != [] {
      var init := done[..|done| - 1];
      ResolvedOnAll(init, tick, shipPos);
      assert forall k :: 0 <= k < |init| ==> done[k] == init[k];
    }
  }

  /** The converse of `ResolvedOnAll`. */
  lemma {:induction false} AllResolvedOn(done: seq<Projectile>, tick: int, shipPos: Vec2)
    requires forall k :: 0 <= k < |done| && done[k].arrival == tick as real ==>
      done[k].status == Outcome(shipPos, done[k].position)
    ensures ResolvedOn(done, tick, shipPos)
    decreases |done|
  {
    if done != [] {
      var init := done[..|done| - 1];
      assert forall k :: 0 <= k < |init| ==> init[k] == done[k];
      AllResolvedOn(init, tick, shipPos);
    }
  }

  class Ship {
    var position: Vec2
    var velocity: Vec2
    var accelerationVector: Vec2
    var turnDirection: int
    const radius: int
    var nextCourseChange: int
    var posHistory: seq<Vec2>
    var velocityHistory: seq<Vec2>
    var accelerationHistory: seq<Vec2>
    var hitHistory: seq<HitRecord>

    /** The three history lists stay aligned, and the acceleration keeps its magnitude:
        steering only turns it. */
    ghost predicate Valid()
      reads this`posHistory, this`velocityHistory, this`accelerationHistory
      reads this`accelerationVector, this`turnDirection
    {
      |posHistory| == |velocityHistory| == |accelerationHistory| &&
      accelerationVector.Norm2() == (ACCELERATION * ACCELERATION) as real &&
      -1 <= turnDirection <= 1
    }

    constructor (x: real, y: real)
      ensures Valid()
      ensures position == Vec2(x, y) && velocity == Vec2(100.0, 0.0) && radius == SHIP_RADIUS
      ensures accelerationVector == Vec2(ACCELERATION as real, 0.0)
      ensures turnDirection == 0 && nextCourseChange == 0
      ensures posHistory == [] && velocityHistory == [] && accelerationHistory == []
      ensures hitHistory == []
    {
      position := Vec2(x, y);
      velocity := Vec2(100.0, 0.0);
      accelerationVector := Vec2(ACCELERATION as real, 0.0);
      turnDirection := 0;
      radius := SHIP_RADIUS;
      nextCourseChange := 0;
      posHistory, velocityHistory, accelerationHistory := [], [], [];
      hitHistory := [];
    }

    /** Course changes fall due every TIME_DELAY_IN_TICKS ticks: say whether `tick` is the
        one due, and if so schedule the next. */
    method ShouldTurn(tick: int) returns (turn: bool)
      modifies this`nextCourseChange
      ensures turn <==> tick == old(nextCourseChange)
      ensures nextCourseChange
           == if turn then old(nextCourseChange) + TIME_DELAY_IN_TICKS else old(nextCourseChange)
    {
      if tick == nextCourseChange {
        nextCourseChange := nextCourseChange + TIME_DELAY_IN_TICKS;
        return true;
      }
      return false;
    }

    /** Append a copy of the current kinematic state to the three history lists. */
    method Log()
      requires Valid()
      modifies this`posHistory, this`velocityHistory, this`accelerationHistory
      ensures Valid()
      ensures posHistory == old(posHistory) + [position]
      ensures velocityHistory == old(velocityHistory) + [velocity]
      ensures accelerationHistory == old(accelerationHistory) + [accelerationVector]
    {
      posHistory := posHistory + [position];
      velocityHistory := velocityHistory + [velocity];
      accelerationHistory := accelerationHistory + [accelerationVector];
    }

    /** Pick the new turn direction; `choice` is the result of `random.choice([-1, 1])`. */
    method ChangeCourse(choice: int)
      requires Valid()
      requires choice == -1 || choice == 1
      modifies this`turnDirection
      ensures Valid()
      ensures turnDirection == choice
    {
      turnDirection := choice;
    }

    /** One tick of motion: turn the acceleration (`rotated` is what rotating it by this
        tick's turn angle yields), then update the velocity from the new acceleration and
        the position from the new velocity (semi-implicit Euler). */
    method Move(rotated: Vec2)
      requires Valid() && IsRotationOf(rotated, accelerationVector, TurnAngle(turnDirection))
      modifies this`accelerationVector, this`velocity, this`position
      ensures Valid()
      ensures accelerationVector == rotated
      ensures turnDirection == 0 ==> accelerationVector == old(accelerationVector)
      ensures velocity == old(velocity).Plus(accelerationVector.Scale(DT))
      ensures position == old(position).Plus(velocity.Scale(DT))
    {
      accelerationVector := rotated;
      velocity := velocity.Plus(accelerationVector.Scale(DT));
      position := position.Plus(velocity.Scale(DT));
    }

    /** Mark one arriving projectile hit or miss against the ship's current position, and
        record it if it hit. */
    method Resolve(proj: Projectile, tick: int)
      modifies this`hitHistory, proj`status
      ensures proj.status == Outcome(position, proj.position)
      ensures hitHistory == old(hitHistory) +
        if Hits(position, proj.position)
        then [HitRecord(tick, proj.position, Dist2(position, proj.position))] else []
    {
      if Hits(position, proj.position) {
        proj.status := Hit;
        var hitRecord := HitRecord(tick, proj.position, Dist2(position, proj.position));
        hitHistory := hitHistory + [hitRecord];
      } else {
        proj.status := Miss;
      }
    }

    /** The collision loop has examined `done` and has `rest` still to go: the live list
        has lost exactly the projectiles of `done` arriving on `tick`, each of which is
        resolved, and the hit history has gained their hit records. */
    ghost predicate Scanned(done: seq<Projectile>, rest: seq<Projectile>,
                            remaining: seq<Projectile>, before: seq<HitRecord>, tick: int)
      reads this`hitHistory, this`position, done`status
    {
      remaining == Unresolved(done, tick as real) + rest &&
      hitHistory == before + HitRecords(done, tick, position) &&
      ResolvedOn(done, tick, position)
    }

    /** Once the whole copy has been examined, the live list, the hit history and the
        statuses of the arriving projectiles are those of a full resolution on `tick`. */
    lemma ScanComplete(live: seq<Projectile>, remaining: seq<Projectile>, before: seq<HitRecord>,
                       tick: int)
      requires Scanned(live, [], remaining, before, tick)
      ensures remaining == Unresolved(live, tick as real)
      ensures hitHistory == before + HitRecords(live, tick, position)
      ensures forall k :: 0 <= k < |live| && live[k].arrival == tick as real ==>
        live[k].status == Outcome(position, live[k].position)
    {
      assert Unresolved(live, tick as real) + [] == Unresolved(live, tick as real);
      ResolvedOnAll(live, tick, position);
    }

    /** One turn of the collision loop: `proj`, the next projectile of the copy, is resolved
        and removed from the live list when it arrives on `tick`; no projectile arriving on
        another tick changes status. */
    method Examine(proj: Projectile, tick: int, remaining: seq<Projectile>,
                   ghost live: seq<Projectile>, ghost done: seq<Projectile>,
                   ghost rest: seq<Projectile>, ghost before: seq<HitRecord>)
        returns (remaining': seq<Projectile>)
      modifies this`hitHistory, proj`status
      requires live == done + ([proj] + rest)
      requires Scanned(done, [proj] + rest, remaining, before, tick)
      ensures live == (done + [proj]) + rest
      ensures Scanned(done + [proj], rest, remaining', before, tick)
      ensures forall k :: 0 <= k < |live| && live[k].arrival != tick as real ==>
        live[k].status == old(live[k].status)
    {
      var t := tick as real;
      ResolvedOnAll(done, tick, position);
      UnresolvedSnoc(done, proj, t);
      HitRecordsSnoc(done, proj, tick, position);
      remaining' := remaining;
      if proj.arrival == t {
        Resolve(proj, tick);
        remaining' := RemoveFollowing(remaining, proj, Unresolved(done, t), rest);
      }
      AllResolvedOn(done + [proj], tick, position);
    }

    /** Resolve every projectile of `live` that arrives on `tick`: mark it hit or miss against
        the ship's current position, remove it from the live list and record each hit.
        Python mutates the list in place; here the list after removal is returned. */
    method CollisionCheck(live: seq<Projectile>, tick: int) returns (remaining: seq<Projectile>)
      modifies this`hitHistory, live`status
      ensures remaining == Unresolved(live, tick as real)
      ensures hitHistory == old(hitHistory) + HitRecords(live, tick, position)
      ensures forall k :: 0 <= k < |live| ==>
        live[k].status == if live[k].arrival == tick as real then Outcome(position, live[k].position)
                          else old(live[k].status)
    {
      ghost var done: seq<Projectile> := [];
      var rest := live;
      remaining := live;
      assert old(hitHistory) + [] == hitHistory && [] + live == live;
      while rest != []
        invariant live == done + rest
        invariant Scanned(done, rest, remaining, old(hitHistory), tick)
        invariant forall k :: 0 <= k < |live| && live[k].arrival != tick as real ==>
          live[k].status == old(live[k].status)
        decreases |rest|
      {
        var proj := rest[0];
        assert rest == [proj] + rest[1..] && live[|done|] == proj;
        remaining := Examine(proj, tick, remaining, live, done, rest[1..], old(hitHistory));
        done := done + [proj];
        rest := rest[1..];
      }
      assert done == live;
      ScanComplete(live, remaining, old(hitHistory), tick);
    }
  }
}
