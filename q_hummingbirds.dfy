/**
 * The tabular-learning hummingbird (Assets/Hummingbird/Scripts/QHummingbird.cs):
 * the same foraging behaviour as the ML-Agents bird, with its own reward
 * accumulator and an integer state built from ray casts (module
 * StateEncoding). What each ray hits, the random draws and the physics are
 * inputs.
 */
module QHummingbirds {
  import opened Wrappers
  import opened Flowers
  import opened FlowerAreas
  import opened Foraging
  import opened StateEncoding

  /** The total of a sequence of rewards. */
  function Sum(rs: seq<real>): real
    decreases |rs|
  {
    if rs == [] then 0.0 else rs[0] + Sum(rs[1..])
  }

  /** Adding a reward at the end adds it to the total. */
  lemma {:induction false} SumAppend(rs: seq<real>, r: real)
    ensures Sum(rs + [r]) == Sum(rs) + r
    decreases |rs|
  {
    if rs != [] {
      assert (rs + [r])[1..] == rs[1..] + [r];
      SumAppend(rs[1..], r);
    }
  }

  class QHummingbird {
    const trainingMode: bool
    const pitchSpeed: real
    const yawSpeed: real
    const area: FlowerArea
    /** The tags a ray can recognise; hitting tags[i] contributes digit i + 1. */
    const tags: seq<string>
    /** The number of rays asked for (a serialized field, 6 by default). */
    const raySize: nat
    /** The base of the ray encoding ("possible ray results"), which the script leaves at 0. */
    const rayPoss: int := 0

    var state: int
    var reward: real
    /** The rewards added since the episode began, oldest first. */
    ghost var rewardLog: seq<real>
    var frozen: bool
    var smoothPitchChange: real
    var smoothYawChange: real
    var nectarObtained: real
    var nearestFlower: Flower?
    var pose: Pose

    /** The reward is the total of the rewards added this episode. */
    ghost predicate Valid()
      reads this
    {
      reward == Sum(rewardLog)
    }

    constructor (trainingMode: bool, pitchSpeed: real, yawSpeed: real, area: FlowerArea, tags: seq<string>, raySize: nat)
      ensures this.trainingMode == trainingMode && this.pitchSpeed == pitchSpeed && this.yawSpeed == yawSpeed
      ensures this.area == area && this.tags == tags && this.raySize == raySize
      ensures Valid() && reward == 0.0 && rewardLog == []
      ensures state == 0 && !frozen && smoothPitchChange == 0.0 && smoothYawChange == 0.0
      ensures nectarObtained == 0.0 && nearestFlower == null && pose == ZeroPose
    {
      this.trainingMode := trainingMode;
      this.pitchSpeed := pitchSpeed;
      this.yawSpeed := yawSpeed;
      this.area := area;
      this.tags := tags;
      this.raySize := raySize;
      state := 0;
      reward := 0.0;
      rewardLog := [];
      frozen := false;
      smoothPitchChange := 0.0;
      smoothYawChange := 0.0;
      nectarObtained := 0.0;
      nearestFlower := null;
      pose := ZeroPose;
    }

    method FreezeAgent()
      modifies this`frozen
      ensures frozen
    {
      frozen := true;
    }

    method UnfreezeAgent()
      modifies this`frozen
      ensures !frozen
    {
      frozen := false;
    }

    method AddReward(r: real)
      requires Valid()
      modifies this`reward, this`rewardLog
      ensures Valid() && rewardLog == old(rewardLog) + [r]
      ensures reward == old(reward) + r
    {
      SumAppend(rewardLog, r);
      reward := reward + r;
      rewardLog := rewardLog + [r];
    }

    /** Restart is OnEpisodeBegin without clearing the reward. */
    method Restart(spawnInFront: bool, candidate: nat -> Pose, isSafe: Pose -> bool, dist: Flower -> real)
      returns (threw: bool)
      modifies this`nectarObtained, this`pose, this`nearestFlower, set f | f in area.flowers
      ensures nectarObtained == 0.0
      ensures trainingMode ==> forall f :: f in area.flowers ==>
                f.nectarAmount == FullNectar && f.HasNectar() &&
                f.flowerColliderActive && f.nectarColliderActive && f.colour == FullColour
      ensures !trainingMode ==> forall f :: f in area.flowers ==> unchanged(f)
      ensures threw <==> (!trainingMode || spawnInFront) && |area.flowers| == 0
      ensures !threw ==> PlacedBySearch(pose, candidate, isSafe)
      ensures !threw ==> nearestFlower == Nearest(old(nearestFlower), area.flowers, dist)
      ensures threw ==> nearestFlower == old(nearestFlower) && pose == old(pose)
      ensures reward == old(reward) && rewardLog == old(rewardLog) && state == old(state) && frozen == old(frozen)
      ensures smoothPitchChange == old(smoothPitchChange) && smoothYawChange == old(smoothYawChange)
    {
      if trainingMode {
        area.ResetFlowers();
      }
      nectarObtained := 0.0;
      var inFrontOfFlower := true;
      if trainingMode {
        inFrontOfFlower := spawnInFront;
      }
      threw := MoveToSafeRandomPosition(inFrontOfFlower, candidate, isSafe);
      if !threw {
        UpdateNearestFlower(dist);
      }
    }

    /** Draw candidate poses until one is collision-free, at most 100 times, and move there. */
    method MoveToSafeRandomPosition(inFrontOfFlower: bool, candidate: nat -> Pose, isSafe: Pose -> bool)
      returns (threw: bool)
      modifies this`pose
      ensures threw <==> inFrontOfFlower && |area.flowers| == 0
      ensures threw ==> pose == old(pose)
      ensures !threw ==> PlacedBySearch(pose, candidate, isSafe)
    {
      threw := inFrontOfFlower && |area.flowers| == 0;
      if threw {
        return;
      }
      var found, attempts;
      pose, found, attempts := SearchSafePose(candidate, isSafe);
      assert candidate(attempts - 1) == pose;
    }

    /** One pass over the area's flowers keeping the running choice. */
    method UpdateNearestFlower(dist: Flower -> real)
      modifies this`nearestFlower
      ensures nearestFlower == Nearest(old(nearestFlower), area.flowers, dist)
    {
      var i := 0;
      while i < |area.flowers|
        invariant 0 <= i <= |area.flowers|
        invariant nearestFlower == Nearest(old(nearestFlower), area.flowers[..i], dist)
      {
        var flower := area.flowers[i];
        assert area.flowers[..i + 1][..i] == area.flowers[..i];
        if nearestFlower == null && flower.HasNectar() {
          nearestFlower := flower;
        } else if flower.HasNectar() {
          if !nearestFlower.HasNectar() || dist(flower) < dist(nearestFlower) {
            nearestFlower := flower;
          }
        }
        i := i + 1;
      }
      assert area.flowers[..i] == area.flowers;
    }

    /**
     * A trigger contact, as for the ML-Agents bird: a nectar collider close
     * enough to the beak tip feeds from its flower and, in training, earns a
     * reward; `threw` reports a collider missing from the dictionary or a
     * null nearest flower when the reward reads its normal.
     */
    method TriggerEnterOrStay(colliderTag: string, collider: ColliderId, beakDistance: real, facing: real, dist: Flower -> real)
      returns (threw: bool)
      requires area.Valid() && Valid()
      modifies this`nectarObtained, this`reward, this`rewardLog, this`nearestFlower, set f | f in area.flowers
      ensures Valid() && state == old(state) && frozen == old(frozen) && pose == old(pose)
      ensures smoothPitchChange == old(smoothPitchChange) && smoothYawChange == old(smoothYawChange)
      ensures !(colliderTag == NectarTag && beakDistance < BeakTipRadius) ==>
                !threw && nectarObtained == old(nectarObtained) && rewardLog == old(rewardLog) &&
                nearestFlower == old(nearestFlower) && forall g :: g in area.flowers ==> unchanged(g)
      ensures colliderTag == NectarTag && beakDistance < BeakTipRadius && collider !in area.nectarFlowerDictionary ==>
                threw && nectarObtained == old(nectarObtained) && rewardLog == old(rewardLog) &&
                nearestFlower == old(nearestFlower) && forall g :: g in area.flowers ==> unchanged(g)
      ensures colliderTag == NectarTag && beakDistance < BeakTipRadius && collider in area.nectarFlowerDictionary ==>
                var flower := area.nectarFlowerDictionary[collider];
                && flower in area.flowers
                && flower.nectarAmount == NectarLeft(NectarPerContact, old(flower.nectarAmount))
                && (!flower.HasNectar() ==>
                      !flower.flowerColliderActive && !flower.nectarColliderActive && flower.colour == EmptyColour)
                && (flower.HasNectar() ==>
                      flower.flowerColliderActive == old(flower.flowerColliderActive) &&
                      flower.nectarColliderActive == old(flower.nectarColliderActive) && flower.colour == old(flower.colour))
                && nectarObtained == old(nectarObtained) + NectarTaken(NectarPerContact, old(flower.nectarAmount))
                && (threw <==> trainingMode && old(nearestFlower) == null)
                && rewardLog == old(rewardLog) + (if trainingMode && !threw then [NectarReward(facing)] else [])
                && (!threw && !flower.HasNectar() ==> nearestFlower == Nearest(old(nearestFlower), area.flowers, dist))
                && (threw || flower.HasNectar() ==> nearestFlower == old(nearestFlower))
                && forall g :: g in area.flowers && g != flower ==> unchanged(g)
    {
      threw := false;
      if colliderTag == NectarTag && beakDistance < BeakTipRadius {
        var found := area.GetFlowerFromNectar(collider);
        if found.None? {
          threw := true;
          return;
        }
        var flower := found.value;
        var nectarReceived := flower.Feed(NectarPerContact);
        nectarObtained := nectarObtained + nectarReceived;
        if trainingMode {
          if nearestFlower == null {
            threw := true;
            return;
          }
          AddReward(NectarReward(facing));
        }
        if !flower.HasNectar() {
          UpdateNearestFlower(dist);
        }
      }
    }

    /** Hitting the area boundary costs 0.5 in training. */
    method OnCollisionEnter(colliderTag: string)
      requires Valid()
      modifies this`reward, this`rewardLog
      ensures Valid()
      ensures rewardLog == old(rewardLog) + (if trainingMode && colliderTag == BoundaryTag then [BoundaryPenalty] else [])
    {
      if trainingMode && colliderTag == BoundaryTag {
        AddReward(BoundaryPenalty);
      }
    }

    /**
     * Cast ray `index`; `hit` is the tag of the collider it hit within range,
     * None when it hit nothing. Every tag equal to the hit one adds
     * rayPoss^index * (its position + 1).
     */
    method RayCaster(index: nat, hit: Option<string>)
      modifies this`state
      ensures state == old(state) + Pow(rayPoss, index) * TagDigit(hit, tags)
    {
      if hit.Some? {
        var i := 0;
        while i < |tags|
          invariant 0 <= i <= |tags|
          invariant state == old(state) + Pow(rayPoss, index) * MatchWeight(hit.value, tags[..i])
        {
          assert tags[..i + 1][..i] == tags[..i];
          if hit.value == tags[i] {
            state := state + Pow(rayPoss, index) * (i + 1);
          }
          i := i + 1;
        }
        assert tags[..i] == tags;
      }
    }

    /**
     * Rebuild the state from rays forward, up and down (indices 0, 1, 2), then
     * pairs of side rays i, i + 1 for odd i from 3 while i < raySize, and add
     * the truncated rayPoss^raySize * nectarObtained.
     */
    method AddObservation(outcome: nat -> Option<string>)
      modifies this`state
      ensures state == Encode(tags, rayPoss, raySize, outcome, nectarObtained)
    {
      state := 0;
      RayCaster(0, outcome(0));
      RayCaster(1, outcome(1));
      RayCaster(2, outcome(2));
      FirstThreeRays(tags, rayPoss, outcome);
      var i := 3;
      while i < raySize
        invariant 3 <= i && i % 2 == 1
        invariant i <= raySize + 1 || i == 3
        invariant state == RaySum(tags, rayPoss, i, outcome)
      {
        RayCaster(i, outcome(i));
        RayCaster(i + 1, outcome(i + 1));
        RayPairStep(tags, rayPoss, i, outcome);
        i := i + 2;
      }
      RayLoopEnd(raySize, i);
      assert state == RaySum(tags, rayPoss, RayCount(raySize), outcome);
      state := state + Trunc(Pow(rayPoss, raySize) as real * nectarObtained);
    }

    /** The rotation half of OnActionReceived, without the frozen check. */
    method BirdRotate(pitchChange: real, yawChange: real, fixedDeltaTime: real, eulerPitch: real, eulerYaw: real)
      modifies this`pose, this`smoothPitchChange, this`smoothYawChange
      ensures smoothPitchChange == MoveTowards(old(smoothPitchChange), pitchChange, 2.0 * fixedDeltaTime)
      ensures smoothYawChange == MoveTowards(old(smoothYawChange), yawChange, 2.0 * fixedDeltaTime)
      ensures pose == Turned(old(pose), eulerPitch, RotationStep(smoothPitchChange, fixedDeltaTime, pitchSpeed),
                             eulerYaw, RotationStep(smoothYawChange, fixedDeltaTime, yawSpeed))
    {
      smoothPitchChange := MoveTowards(smoothPitchChange, pitchChange, 2.0 * fixedDeltaTime);
      smoothYawChange := MoveTowards(smoothYawChange, yawChange, 2.0 * fixedDeltaTime);
      var pitchStep := RotationStep(smoothPitchChange, fixedDeltaTime, pitchSpeed);
      var yawStep := RotationStep(smoothYawChange, fixedDeltaTime, yawSpeed);
      pose := Turned(pose, eulerPitch, pitchStep, eulerYaw, yawStep);
    }

    /** Like Restart, and the reward starts again from zero. */
    method OnEpisodeBegin(spawnInFront: bool, candidate: nat -> Pose, isSafe: Pose -> bool, dist: Flower -> real)
      returns (threw: bool)
      modifies this`nectarObtained, this`reward, this`rewardLog, this`pose, this`nearestFlower, set f | f in area.flowers
      ensures Valid() && reward == 0.0 && rewardLog == []
      ensures nectarObtained == 0.0
      ensures trainingMode ==> forall f :: f in area.flowers ==>
                f.nectarAmount == FullNectar && f.HasNectar() &&
                f.flowerColliderActive && f.nectarColliderActive && f.colour == FullColour
      ensures !trainingMode ==> forall f :: f in area.flowers ==> unchanged(f)
      ensures threw <==> (!trainingMode || spawnInFront) && |area.flowers| == 0
      ensures !threw ==> PlacedBySearch(pose, candidate, isSafe)
      ensures !threw ==> nearestFlower == Nearest(old(nearestFlower), area.flowers, dist)
      ensures threw ==> nearestFlower == old(nearestFlower) && pose == old(pose)
      ensures state == old(state) && frozen == old(frozen)
      ensures smoothPitchChange == old(smoothPitchChange) && smoothYawChange == old(smoothYawChange)
    {
      if trainingMode {
        area.ResetFlowers();
      }
      nectarObtained := 0.0;
      reward := 0.0;
      rewardLog := [];
      var inFrontOfFlower := true;
      if trainingMode {
        inFrontOfFlower := spawnInFront;
      }
      threw := MoveToSafeRandomPosition(inFrontOfFlower, candidate, isSafe);
      if !threw {
        UpdateNearestFlower(dist);
      }
    }

    /** Re-select when there is no nearest flower or it ran dry. */
    method FixedUpdate(dist: Flower -> real)
      modifies this`nearestFlower
      ensures old(nearestFlower) == null || !old(nearestFlower).HasNectar() ==>
                nearestFlower == Nearest(old(nearestFlower), area.flowers, dist)
      ensures old(nearestFlower) != null && old(nearestFlower).HasNectar() ==> nearestFlower == old(nearestFlower)
      ensures SomeHasNectar(area.flowers) ==> nearestFlower != null && nearestFlower.HasNectar()
    {
      if (nearestFlower != null && !nearestFlower.HasNectar()) || nearestFlower == null {
        UpdateNearestFlower(dist);
        if SomeHasNectar(area.flowers) {
          NearestHasNectar(old(nearestFlower), area.flowers, dist);
        }
      }
    }
  }
}
