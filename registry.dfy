/** Projectiles and the bookkeeping around them: their three-state status, the hit test,
    the hit records appended to the ship, and the list operations that collision
    resolution performs on the live list. */
module Registry {
  import opened Config
  import opened Vectors

  datatype Status = Live | Hit | Miss

  /** A fired projectile. It does not move: its impact point and arrival tick are fixed
      when it is created; only its status changes, once, when it is resolved. The same
      object sits in the full list and in the live list, so a status change is seen
      through both. */
  class Projectile {
    const position: Vec2
    const radius: int
    const arrival: real
    var status: Status

    constructor (x: real, y: real, arrival: real)
      ensures position == Vec2(x, y) && radius == PROJECTILE_RADIUS
      ensures this.arrival == arrival && status == Live
    {
      position := Vec2(x, y);
      radius := PROJECTILE_RADIUS;
      this.arrival := arrival;
      status := Live;
    }
  }

  /** What the ship records about a projectile that hit it. The source stores the distance
      between ship and impact point as `offset`; here it is kept squared. */
  datatype HitRecord = HitRecord(tick: int, impactPos: Vec2, offsetSquared: real)

  /** The hit test `distance <= SHIP_RADIUS`, compared on squares. */
  predicate Hits(shipPos: Vec2, impact: Vec2)
    ensures shipPos == impact ==> Hits(shipPos, impact)
  {
    Dist2(shipPos, impact) <= (SHIP_RADIUS * SHIP_RADIUS) as real
  }

  /** The squared test agrees with the source's test on the (square-rooted) distance. */
  lemma HitsIffWithinRadius(shipPos: Vec2, impact: Vec2, distance: real)
    requires distance >= 0.0 && distance * distance == Dist2(shipPos, impact)
    ensures Hits(shipPos, impact) <==> distance <= SHIP_RADIUS as real
  {
    var r := SHIP_RADIUS as real;
    if distance <= r {
      assert distance * distance <= r * distance <= r * r;
    } else {
      assert distance * distance > r * distance > r * r;
    }
  }

  /** A projectile exactly one radius from the ship's centre is a hit: the boundary is inclusive. */
  lemma BoundaryIsHit(shipPos: Vec2)
    ensures Hits(shipPos, Vec2(shipPos.x + SHIP_RADIUS as real, shipPos.y))
    ensures Hits(shipPos, Vec2(shipPos.x, shipPos.y - SHIP_RADIUS as real))
  {
  }

  /** The status a projectile is given when it is resolved. */
  function Outcome(shipPos: Vec2, impact: Vec2): (s: Status)
    ensures s != Live
    ensures s == Hit <==> Hits(shipPos, impact)
  {
    if Hits(shipPos, impact) then Hit else Miss
  }

  /** The projectiles of `live` that are not resolved on tick `t`, in their order. */
  function Unresolved(live: seq<Projectile>, t: real): (r: seq<Projectile>)
    ensures |r| <= |live|
    ensures forall k :: 0 <= k < |r| ==> r[k].arrival != t
  {
    if live == [] then []
    else
      var rest := Unresolved(live[..|live| - 1], t);
      assert live == live[..|live| - 1] + [live[|live| - 1]];
      if live[|live| - 1].arrival == t then rest else rest + [live[|live| - 1]]
  }

  /** One more projectile examined: it is kept unless it arrives on `t`. */
  lemma UnresolvedSnoc(s: seq<Projectile>, p: Projectile, t: real)
    ensures Unresolved(s + [p], t) == if p.arrival == t then Unresolved(s, t) else Unresolved(s, t) + [p]
  {
    assert (s + [p])[..|s|] == s;
  }

  /** Unresolved keeps exactly the projectiles of `live` that do not arrive on `t`. */
  lemma {:induction false} UnresolvedMembers(live: seq<Projectile>, t: real)
    ensures forall k :: 0 <= k < |Unresolved(live, t)| ==> Unresolved(live, t)[k] in live
    ensures forall k :: 0 <= k < |live| && live[k].arrival != t ==> live[k] in Unresolved(live, t)
  {
    if live != [] {
      var n := |live| - 1;
      UnresolvedMembers(live[..n], t);
      assert forall k :: 0 <= k < n ==> live[..n][k] == live[k];
    }
  }

  /** Unresolved keeps the relative order: it distributes over concatenation. */
  lemma {:induction false} UnresolvedAppend(a: seq<Projectile>, b: seq<Projectile>, t: real)
    ensures Unresolved(a + b, t) == Unresolved(a, t) + Unresolved(b, t)
    decreases |b|
  {
    if b == [] {
      assert a + b == a;
    } else {
      var b' := b[..|b| - 1];
      assert (a + b)[..|a + b| - 1] == a + b';
      UnresolvedAppend(a, b', t);
    }
  }

  /** Python's `list.remove(x)`: drop the first element identical to `x`, or fail with
      ValueError (None) when there is none. */
  function Remove(s: seq<Projectile>, x: Projectile): (r: Option<seq<Projectile>>)
    ensures r.None? <==> x !in s
    ensures r.Some? ==> |r.value| == |s| - 1
  {
    if s == [] then None
    else if s[0] == x then Some(s[1..])
    else
      match Remove(s[1..], x)
      case None => None
      case Some(rest) => Some([s[0]] + rest)
  }

  /** In `a + [x] + b` with no `x` in `a`, the `x` removed is the one between them. */
  lemma {:induction false} RemoveAt(a: seq<Projectile>, x: Projectile, b: seq<Projectile>)
    requires x !in a
    ensures Remove(a + [x] + b, x) == Some(a + b)
  {
    var s := a + [x] + b;
    if a == [] {
      assert s[0] == x && s[1..] == b && a + b == b;
    } else {
      assert s[0] == a[0] != x;
      assert s[1..] == a[1..] + [x] + b;
      RemoveAt(a[1..], x, b);
      assert Remove(s, x) == Some([a[0]] + (a[1..] + b));
      assert [a[0]] + (a[1..] + b) == a + b;
    }
  }

  /** Removes `x` from a list in which it follows a prefix `a` free of it: what is left is
      `a + b`. */
  method RemoveFollowing(s: seq<Projectile>, x: Projectile, ghost a: seq<Projectile>, ghost b: seq<Projectile>)
      returns (r: seq<Projectile>)
    requires s == a + [x] + b && x !in a
    ensures r == a + b
  {
    RemoveAt(a, x, b);
    r := Remove(s, x).value;
  }

  /** The hit records that resolving the projectiles of `live` on `tick`, against a ship at
      `shipPos`, appends: one per projectile that arrives and hits, in order. */
  function HitRecords(live: seq<Projectile>, tick: int, shipPos: Vec2): (r: seq<HitRecord>)
    ensures |r| <= |live|
    ensures forall k :: 0 <= k < |r| ==>
      r[k].tick == tick && r[k].offsetSquared <= (SHIP_RADIUS * SHIP_RADIUS) as real
  {
    if live == [] then []
    else
      var p := live[|live| - 1];
      var rest := HitRecords(live[..|live| - 1], tick, shipPos);
      if p.arrival == tick as real && Hits(shipPos, p.position)
      then rest + [HitRecord(tick, p.position, Dist2(shipPos, p.position))]
      else rest
  }

  /** One more projectile examined: a record is appended exactly when it arrives and hits. */
  lemma HitRecordsSnoc(s: seq<Projectile>, p: Projectile, tick: int, shipPos: Vec2)
    ensures HitRecords(s + [p], tick, shipPos)
         == HitRecords(s, tick, shipPos)
            + if p.arrival == tick as real && Hits(shipPos, p.position)
              then [HitRecord(tick, p.position, Dist2(shipPos, p.position))] else []
  {
    assert (s + [p])[..|s|] == s;
  }

  /** The statuses of a list of projectiles, read from the heap. */
  function StatusesOf(ps: seq<Projectile>): (st: seq<Status>)
    reads ps`status
    ensures |st| == |ps|
    ensures forall i :: 0 <= i < |ps| ==> st[i] == ps[i].status
  {
    if ps == [] then [] else StatusesOf(ps[..|ps| - 1]) + [ps[|ps| - 1].status]
  }

  /** The projectiles of `ps` whose status in `st` is Live, in order. */
  function LiveFilter(ps: seq<Projectile>, st: seq<Status>): (r: seq<Projectile>)
    requires |st| == |ps|
    ensures |r| <= |ps|
  {
    if ps == [] then []
    else
      var n := |ps| - 1;
      var rest := LiveFilter(ps[..n], st[..n]);
      if st[n] == Live then rest + [ps[n]] else rest
  }

  /** Where the `k`-th projectile LiveFilter keeps comes from: an index of `ps` holding it,
      with status Live. */
  function LiveSource(ps: seq<Projectile>, st: seq<Status>, k: nat): (i: nat)
    requires |st| == |ps| && k < |LiveFilter(ps, st)|
    ensures i < |ps| && ps[i] == LiveFilter(ps, st)[k] && st[i] == Live
    decreases |ps|
  {
    var n := |ps| - 1;
    var rest := LiveFilter(ps[..n], st[..n]);
    if k < |rest| then
      var i := LiveSource(ps[..n], st[..n], k);
      assert ps[..n][i] == ps[i] && st[..n][i] == st[i];
      i
    else
      n
  }

  /** LiveFilter keeps every projectile whose status is Live. */
  lemma {:induction false} LiveFilterKeepsLive(ps: seq<Projectile>, st: seq<Status>)
    requires |st| == |ps|
    ensures forall i :: 0 <= i < |ps| && st[i] == Live ==> ps[i] in LiveFilter(ps, st)
  {
    if ps != [] {
      var n := |ps| - 1;
      var r, rest := LiveFilter(ps, st), LiveFilter(ps[..n], st[..n]);
      LiveFilterKeepsLive(ps[..n], st[..n]);
      forall i | 0 <= i < |ps| && st[i] == Live
        ensures ps[i] in LiveFilter(ps, st)
      {
        if i < n {
          assert ps[..n][i] == ps[i] && st[..n][i] == st[i];
          assert ps[i] in rest;
          assert r == rest || r == rest + [ps[n]];
        } else {
          assert r == rest + [ps[n]];
        }
      }
    }
  }

  /** Resolving the projectiles that arrive on tick `t` (and changing no other status) turns
      the live sublist into its unresolved part: the live list that collision resolution
      keeps is again exactly the live sublist of the full list. */
  lemma {:induction false} ResolveKeepsLive(ps: seq<Projectile>, st0: seq<Status>, st1: seq<Status>, t: real)
    requires |st0| == |ps| == |st1|
    requires forall i :: 0 <= i < |ps| ==>
      if st0[i] == Live && ps[i].arrival == t then st1[i] != Live else st1[i] == st0[i]
    ensures LiveFilter(ps, st1) == Unresolved(LiveFilter(ps, st0), t)
  {
    if ps != [] {
      var n := |ps| - 1;
      ResolveKeepsLive(ps[..n], st0[..n], st1[..n], t);
      var l0 := LiveFilter(ps[..n], st0[..n]);
      if st0[n] == Live {
        assert LiveFilter(ps, st0) == l0 + [ps[n]];
        assert (l0 + [ps[n]])[..|l0|] == l0;
      }
    }
  }

  /** Appending projectiles whose statuses are all Live appends them to the live sublist. */
  lemma {:induction false} LiveFilterAppend(ps: seq<Projectile>, st: seq<Status>,
                                            added: seq<Projectile>, addedSt: seq<Status>)
    requires |st| == |ps| && |addedSt| == |added|
    requires forall k :: 0 <= k < |addedSt| ==> addedSt[k] == Live
    ensures LiveFilter(ps + added, st + addedSt) == LiveFilter(ps, st) + added
    decreases |added|
  {
    if added == [] {
      assert ps + added == ps && st + addedSt == st;
    } else {
      var n := |added| - 1;
      LiveFilterAppend(ps, st, added[..n], addedSt[..n]);
      var qs, qst := ps + added, st + addedSt;
      var m := |qs| - 1;
      assert qs[..m] == ps + added[..n] && qst[..m] == st + addedSt[..n];
      assert qs[m] == added[n] && qst[m] == Live;
      assert added[..n] + [added[n]] == added;
    }
  }

  /** Projectiles none of which arrive on `t` are all kept, and add no hit record. */
  lemma {:induction false} NoneArriving(s: seq<Projectile>, extra: seq<Projectile>, tick: int, shipPos: Vec2)
    requires forall k :: 0 <= k < |extra| ==> extra[k].arrival != tick as real
    ensures Unresolved(s + extra, tick as real) == Unresolved(s, tick as real) + extra
    ensures HitRecords(s + extra, tick, shipPos) == HitRecords(s, tick, shipPos)
    decreases |extra|
  {
    if extra == [] {
      assert s + extra == s;
    } else {
      var n := |extra| - 1;
      var e := extra[..n];
      assert s + extra == (s + e) + [extra[n]];
      NoneArriving(s, e, tick, shipPos);
      UnresolvedSnoc(s + e, extra[n], tick as real);
      HitRecordsSnoc(s + e, extra[n], tick, shipPos);
      assert e + [extra[n]] == extra;
    }
  }

  datatype Option<T> = None | Some(value: T)
}
