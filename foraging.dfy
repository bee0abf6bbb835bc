/**
 * Logic shared, line for line, by the two hummingbird agents
 * (Assets/Hummingbird/Scripts/HummingbirdAgent.cs and QHummingbird.cs):
 * nearest-flower selection, pitch wrap-and-clamp, the nectar reward and the
 * bounded search for a collision-free spawn pose.
 */
module Foraging {
  import opened Flowers

  const MaxPitchAngle: real := 80.0
  /** How much nectar one trigger contact tries to take. */
  const NectarPerContact: real := 0.01
  /** A nectar contact only counts when the beak tip is closer than this to the collider. */
  const BeakTipRadius: real := 0.008
  const BoundaryPenalty: real := -0.5
  const MaxSpawnAttempts: nat := 100

  const NectarTag: string := "nectar"
  const BoundaryTag: string := "boundary"

  // ---------------------------------------------------------------- nearest flower

  /**
   * The flower UpdateNearestFlower leaves in nearestFlower, starting from `cur`
   * and visiting `fs` in order; `dist` is the distance from the beak tip.
   */
  function Nearest(cur: Flower?, fs: seq<Flower>, dist: Flower -> real): (r: Flower?)
    reads cur, fs
    ensures r == cur || r in fs
    decreases |fs|
  {
    if fs == [] then cur
    else
      var prev := Nearest(cur, fs[..|fs| - 1], dist);
      var f := fs[|fs| - 1];
      if prev == null && f.HasNectar() then f
      else if f.HasNectar() && (!prev.HasNectar() || dist(f) < dist(prev)) then f
      else prev
  }

  /** The flowers the selection compares: the current choice when it still has nectar, then the list. */
  function Candidates(cur: Flower?, fs: seq<Flower>): seq<Flower>
    reads cur
  {
    (if cur != null && cur.HasNectar() then [cur] else []) + fs
  }

  ghost predicate SomeHasNectar(fs: seq<Flower>)
    reads fs
  {
    exists k :: 0 <= k < |fs| && fs[k].HasNectar()
  }

  /** fs[k] has nectar, is no farther than any flower with nectar, and strictly closer than every earlier one. */
  ghost predicate FirstClosestAt(fs: seq<Flower>, k: int, dist: Flower -> real)
    reads fs
  {
    && 0 <= k < |fs|
    && fs[k].HasNectar()
    && (forall j :: 0 <= j < |fs| && fs[j].HasNectar() ==> dist(fs[k]) <= dist(fs[j]))
    && (forall j :: 0 <= j < k && fs[j].HasNectar() ==> dist(fs[k]) < dist(fs[j]))
  }

  /**
   * UpdateNearestFlower picks the first closest flower with nectar among the
   * candidates, and leaves the choice alone when no candidate has nectar.
   */
  lemma {:induction false} NearestIsFirstClosest(cur: Flower?, fs: seq<Flower>, dist: Flower -> real)
    ensures SomeHasNectar(Candidates(cur, fs)) ==>
              exists k :: FirstClosestAt(Candidates(cur, fs), k, dist) && Candidates(cur, fs)[k] == Nearest(cur, fs, dist)
    ensures !SomeHasNectar(Candidates(cur, fs)) ==> Nearest(cur, fs, dist) == cur
    decreases |fs|
  {
    if fs != [] {
      var init, f := fs[..|fs| - 1], fs[|fs| - 1];
      NearestIsFirstClosest(cur, init, dist);
      var before, after := Candidates(cur, init), Candidates(cur, fs);
      var prev := Nearest(cur, init, dist);
      assert after == before + [f];
      if SomeHasNectar(before) {
        var k :| FirstClosestAt(before, k, dist) && before[k] == prev;
        FirstClosestExtends(before, k, f, dist);
        if f.HasNectar() && dist(f) < dist(prev) {
          assert after[|after| - 1] == Nearest(cur, fs, dist);
        } else {
          assert after[k] == Nearest(cur, fs, dist);
        }
      } else if f.HasNectar() {
        FirstClosestIsNew(before, f, dist);
        assert prev == cur;
        CurrentIsCandidate(cur, init);
        assert Nearest(cur, fs, dist) == f;
        assert after[|after| - 1] == f;
      } else {
        NoNectarStaysNone(before, f);
      }
    }
  }

  /** A current choice that still has nectar is a candidate, so some candidate has nectar. */
  lemma CurrentIsCandidate(cur: Flower?, fs: seq<Flower>)
    ensures cur != null && cur.HasNectar() ==> Candidates(cur, fs)[0] == cur && SomeHasNectar(Candidates(cur, fs))
  {
  }

  /** Appending a flower keeps the first closest one, unless the new flower has nectar and is strictly closer. */
  lemma FirstClosestExtends(before: seq<Flower>, k: int, f: Flower, dist: Flower -> real)
    requires FirstClosestAt(before, k, dist)
    ensures f.HasNectar() && dist(f) < dist(before[k]) ==> FirstClosestAt(before + [f], |before|, dist)
    ensures !(f.HasNectar() && dist(f) < dist(before[k])) ==> FirstClosestAt(before + [f], k, dist)
  {
    var after := before + [f];
    assert forall j :: 0 <= j < |before| ==> after[j] == before[j];
  }

  /** The first flower with nectar is the first closest one so far. */
  lemma FirstClosestIsNew(before: seq<Flower>, f: Flower, dist: Flower -> real)
    requires !SomeHasNectar(before) && f.HasNectar()
    ensures FirstClosestAt(before + [f], |before|, dist)
  {
    var after := before + [f];
    assert forall j :: 0 <= j < |before| ==> after[j] == before[j];
  }

  /** Appending a flower without nectar to flowers without nectar leaves none with nectar. */
  lemma NoNectarStaysNone(before: seq<Flower>, f: Flower)
    requires !SomeHasNectar(before) && !f.HasNectar()
    ensures !SomeHasNectar(before + [f])
  {
    var after := before + [f];
    forall j | 0 <= j < |after| ensures !after[j].HasNectar() {
      if j < |before| {
        assert after[j] == before[j];
      }
    }
  }

  /** If any listed flower has nectar, the nearest flower afterwards has nectar. */
  lemma NearestHasNectar(cur: Flower?, fs: seq<Flower>, dist: Flower -> real)
    requires SomeHasNectar(fs)
    ensures Nearest(cur, fs, dist) != null && Nearest(cur, fs, dist).HasNectar()
  {
    NearestIsFirstClosest(cur, fs, dist);
    var cands := Candidates(cur, fs);
    var k :| 0 <= k < |fs| && fs[k].HasNectar();
    assert cands[|cands| - |fs| + k] == fs[k];
  }

  /** If no listed flower has nectar, the choice is left unchanged. */
  lemma {:induction false} NearestUnchangedWithoutNectar(cur: Flower?, fs: seq<Flower>, dist: Flower -> real)
    requires !SomeHasNectar(fs)
    ensures Nearest(cur, fs, dist) == cur
    decreases |fs|
  {
    if fs != [] {
      var init := fs[..|fs| - 1];
      assert !SomeHasNectar(init) by {
        forall k | 0 <= k < |init| ensures !init[k].HasNectar() {
          assert init[k] == fs[k];
        }
      }
      NearestUnchangedWithoutNectar(cur, init, dist);
      assert !fs[|fs| - 1].HasNectar();
    }
  }

  // ---------------------------------------------------------------- pitch

  /**
   * The pitch applied after an action: the Euler pitch plus the smoothed step,
   * brought from (180, 360] down by 360, then clamped to +-80 degrees.
   */
  function NextPitch(eulerPitch: real, step: real): (p: real)
    ensures -MaxPitchAngle <= p <= MaxPitchAngle
    ensures -MaxPitchAngle <= eulerPitch + step <= MaxPitchAngle ==> p == eulerPitch + step
    ensures 280.0 <= eulerPitch + step <= 440.0 ==> p == eulerPitch + step - 360.0
    ensures MaxPitchAngle < eulerPitch + step <= 180.0 ==> p == MaxPitchAngle
    ensures eulerPitch + step < -MaxPitchAngle ==> p == -MaxPitchAngle
    ensures 180.0 < eulerPitch + step < 280.0 ==> p == -MaxPitchAngle
    ensures eulerPitch + step > 440.0 ==> p == MaxPitchAngle
  {
    var pitch := eulerPitch + step;
    var wrapped := if pitch > 180.0 then pitch - 360.0 else pitch;
    Clamp(wrapped, -MaxPitchAngle, MaxPitchAngle)
  }

  /** The angle turned in one fixed update by a smoothed action at a given speed in degrees per second. */
  function RotationStep(smoothedChange: real, fixedDeltaTime: real, speed: real): real
  {
    smoothedChange * fixedDeltaTime * speed
  }

  /**
   * The rotation Quaternion.Euler(pitch, yaw, 0) built from the current Euler
   * angles and the steps: the pitch wrapped and clamped, the yaw free, no roll;
   * the position is kept.
   */
  function Turned(pose: Pose, eulerPitch: real, pitchStep: real, eulerYaw: real, yawStep: real): (r: Pose)
    ensures r.x == pose.x && r.y == pose.y && r.z == pose.z
    ensures r.pitch == NextPitch(eulerPitch, pitchStep) && -MaxPitchAngle <= r.pitch <= MaxPitchAngle
    ensures r.yaw == eulerYaw + yawStep && r.roll == 0.0
  {
    pose.(pitch := NextPitch(eulerPitch, pitchStep), yaw := eulerYaw + yawStep, roll := 0.0)
  }

  /** The distance between two reals. */
  function Distance(a: real, b: real): real
  {
    if a <= b then b - a else a - b
  }

  /**
   * Mathf.MoveTowards: step from `current` toward `target` by at most
   * `maxDelta`, landing on the target once it is that close (Mathf.Sign
   * counts 0 as positive).
   */
  function MoveTowards(current: real, target: real, maxDelta: real): (r: real)
    ensures Distance(target, current) <= maxDelta ==> r == target
    ensures 0.0 <= maxDelta ==> Distance(r, current) <= maxDelta
    ensures 0.0 <= maxDelta && maxDelta < Distance(target, current) ==>
              Distance(target, r) == Distance(target, current) - maxDelta
    ensures 0.0 <= maxDelta ==> (current <= r <= target || target <= r <= current)
  {
    if Distance(target, current) <= maxDelta then target
    else current + (if target - current >= 0.0 then 1.0 else -1.0) * maxDelta
  }

  /** The smoothed value after `steps` fixed updates toward the same target. */
  function Smoothed(current: real, target: real, maxDelta: real, steps: nat): real
  {
    if steps == 0 then current else MoveTowards(Smoothed(current, target, maxDelta, steps - 1), target, maxDelta)
  }

  /** The most that `steps` fixed updates can move a smoothed value: steps * maxDelta, as a repeated sum. */
  function Reach(maxDelta: real, steps: nat): real
  {
    if steps == 0 then 0.0 else Reach(maxDelta, steps - 1) + maxDelta
  }

  /**
   * Held steady, a smoothed action never overshoots: it stays between where it
   * started and the target, and has moved by at most the updates' combined reach.
   */
  lemma {:induction false} SmoothingStaysWithinReach(current: real, target: real, maxDelta: real, steps: nat)
    requires 0.0 <= maxDelta
    ensures var s := Smoothed(current, target, maxDelta, steps);
      (current <= s <= target || target <= s <= current) && Distance(current, s) <= Reach(maxDelta, steps)
  {
    if steps > 0 {
      SmoothingStaysWithinReach(current, target, maxDelta, steps - 1);
    }
  }

  /** Held steady, an action is reached once the steps cover the distance, and is then kept. */
  lemma {:induction false} SmoothingReachesTarget(current: real, target: real, maxDelta: real, steps: nat)
    requires 0.0 <= maxDelta
    ensures Distance(target, current) <= Reach(maxDelta, steps) ==> Smoothed(current, target, maxDelta, steps) == target
    ensures Distance(target, current) > Reach(maxDelta, steps) ==>
              Distance(target, Smoothed(current, target, maxDelta, steps)) == Distance(target, current) - Reach(maxDelta, steps)
  {
    if steps > 0 {
      SmoothingReachesTarget(current, target, maxDelta, steps - 1);
    }
  }

  // ---------------------------------------------------------------- rewards

  /** Mathf.Clamp01. */
  function Clamp01(v: real): real
  {
    Clamp(v, 0.0, 1.0)
  }

  /** The training reward for a nectar contact, given how squarely the bird faces the flower. */
  function NectarReward(facing: real): (r: real)
    ensures 0.01 <= r <= 0.03
    ensures facing <= 0.0 ==> r == 0.01
    ensures facing >= 1.0 ==> r == 0.03
  {
    0.01 + 0.02 * Clamp01(facing)
  }

  // ---------------------------------------------------------------- spawning

  /** Where and how the agent is placed: a position and Euler angles. */
  datatype Pose = Pose(x: real, y: real, z: real, pitch: real, yaw: real, roll: real)

  const ZeroPose: Pose := Pose(0.0, 0.0, 0.0, 0.0, 0.0, 0.0)

  /** The pose MoveToSafeRandomPosition leaves: the last of at most 100 draws, the first safe one if any. */
  ghost predicate PlacedBySearch(pose: Pose, candidate: nat -> Pose, isSafe: Pose -> bool)
  {
    exists last :: 0 <= last < MaxSpawnAttempts && pose == candidate(last) &&
      (forall k :: 0 <= k < last ==> !isSafe(candidate(k))) &&
      (isSafe(candidate(last)) || last == MaxSpawnAttempts - 1)
  }

  /**
   * MoveToSafeRandomPosition's search: attempt k draws `candidate(k)`, and the
   * overlap test `isSafe` says whether it is free of colliders. At most 100
   * attempts; the pose returned is the last one drawn, safe or not.
   */
  method SearchSafePose(candidate: nat -> Pose, isSafe: Pose -> bool) returns (pose: Pose, found: bool, attempts: nat)
    ensures 1 <= attempts <= MaxSpawnAttempts
    ensures pose == candidate(attempts - 1) && found == isSafe(pose)
    ensures forall k :: 0 <= k < attempts - 1 ==> !isSafe(candidate(k))
    ensures !found ==> attempts == MaxSpawnAttempts
  {
    found := false;
    var attemptRemaining := MaxSpawnAttempts;
    pose := ZeroPose;
    attempts := 0;
    while !found && attemptRemaining > 0
      invariant attempts + attemptRemaining == MaxSpawnAttempts
      invariant attempts > 0 ==> pose == candidate(attempts - 1) && found == isSafe(pose)
      invariant attempts == 0 ==> !found
      invariant forall k :: 0 <= k < attempts - 1 ==> !isSafe(candidate(k))
      decreases attemptRemaining
    {
      attemptRemaining := attemptRemaining - 1;
      pose := candidate(attempts);
      found := isSafe(pose);
      attempts := attempts + 1;
    }
  }
}
