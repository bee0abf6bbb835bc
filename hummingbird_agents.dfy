/**
 * The ML-Agents hummingbird (Assets/Hummingbird/Scripts/HummingbirdAgent.cs).
 * Physics (forces, velocities, overlap tests), the Unity transform and the
 * random draws are inputs; the ML-Agents base class is reduced to the reward
 * it accumulates and its MaxStep setting.
 */
module HummingbirdAgents {
  import opened Wrappers
  import opened Flowers
  import opened FlowerAreas
  import opened Foraging

  class HummingbirdAgent {
    const trainingMode: bool
    /** Degrees per second at full pitch and yaw action. */
    const pitchSpeed: real
    const yawSpeed: real
    /** The flower area the agent lives in (GetComponentInParent). */
    const area: FlowerArea
    /** The ML-Agents episode length; 0 means no limit. */
    var maxStep: int
    var frozen: bool
    /** The pitch and yaw actions after smoothing. */
    var smoothPitchChange: real
    var smoothYawChange: real
    var nectarObtained: real
    var nearestFlower: Flower?
    /** The reward handed to ML-Agents through AddReward. */
    var rewardTotal: real
    var pose: Pose

    constructor (trainingMode: bool, pitchSpeed: real, yawSpeed: real, area: FlowerArea, maxStep: int)
      ensures this.trainingMode == trainingMode && this.pitchSpeed == pitchSpeed && this.yawSpeed == yawSpeed
      ensures this.area == area && this.maxStep == maxStep
      ensures smoothPitchChange == 0.0 && smoothYawChange == 0.0
      ensures !frozen && nectarObtained == 0.0 && nearestFlower == null && rewardTotal == 0.0 && pose == ZeroPose
    {
      this.trainingMode := trainingMode;
      this.pitchSpeed := pitchSpeed;
      this.yawSpeed := yawSpeed;
      this.area := area;
      this.maxStep := maxStep;
      frozen := false;
      smoothPitchChange := 0.0;
      smoothYawChange := 0.0;
      nectarObtained := 0.0;
      nearestFlower := null;
      rewardTotal := 0.0;
      pose := ZeroPose;
    }

    /** Outside training the episode never times out. */
    method Initialize()
      modifies this`maxStep
      ensures !trainingMode ==> maxStep == 0
      ensures trainingMode ==> maxStep == old(maxStep)
    {
      if !trainingMode {
        maxStep := 0;
      }
    }

    method AddReward(r: real)
      modifies this`rewardTotal
      ensures rewardTotal == old(rewardTotal) + r
    {
      rewardTotal := rewardTotal + r;
    }

    /**
     * Refill the flowers (training only), forget the nectar obtained, respawn
     * and pick the nearest flower. `spawnInFront` is the coin flip
     * Random.value > 0.5; outside training the agent always spawns in front of
     * a flower. `threw` reports the exception of drawing a flower from an
     * empty list.
     */
    method OnEpisodeBegin(spawnInFront: bool, candidate: nat -> Pose, isSafe: Pose -> bool, dist: Flower -> real)
      returns (threw: bool)
      modifies this`nectarObtained, this`pose, this`nearestFlower, set f | f in area.flowers
      ensures nectarObtained == 0.0
      ensures trainingMode ==> forall f :: f in area.flowers ==>
                f.nectarAmount == FullNectar && f.HasNectar() &&
                f.flowerColliderActive && f.nectarColliderActive && f.colour == FullColour
      ensures !trainingMode ==> forall f :: f in area.flowers ==> unchanged(f)
      ensures threw <==> (!trainingMode || spawnInFront) && |area.flowers| == 0
      ensures !threw ==> PlacedBySearch(pose, candidate, isSafe)
      ensures !threw ==> nearestFlower == Nearest(old(nearestFlower), area.flowers, dist)
      ensures threw ==> nearestFlower == old(nearestFlower) && pose == old(pose)
      ensures rewardTotal == old(rewardTotal) && frozen == old(frozen) && maxStep == old(maxStep)
      ensures smoothPitchChange == old(smoothPitchChange) && smoothYawChange == old(smoothYawChange)
    {
      if trainingMode {
        area.ResetFlowers();
      }
      nectarObtained := 0.0;
      var inFrontOfFlower := true;
      if trainingMode {
        inFrontOfFlower := spawnInFront;
      }
      threw := MoveToSafeRandomPosition(inFrontOfFlower, candidate, isSafe);
      if !threw {
        UpdateNearestFlower(dist);
      }
    }

    /**
     * A frozen agent ignores actions. Otherwise the pitch and yaw actions are
     * smoothed (at most 2 per second of change), the pitch is wrapped and
     * clamped, the yaw is not, and the roll is zeroed. `eulerPitch` and
     * `eulerYaw` are the current rotation's Euler angles; the movement force
     * is physics and not part of this model.
     */
    method OnActionReceived(pitchChange: real, yawChange: real, fixedDeltaTime: real, eulerPitch: real, eulerYaw: real)
      modifies this`pose, this`smoothPitchChange, this`smoothYawChange
      ensures frozen ==> pose == old(pose) && smoothPitchChange == old(smoothPitchChange) && smoothYawChange == old(smoothYawChange)
      ensures !frozen ==> smoothPitchChange == MoveTowards(old(smoothPitchChange), pitchChange, 2.0 * fixedDeltaTime)
      ensures !frozen ==> smoothYawChange == MoveTowards(old(smoothYawChange), yawChange, 2.0 * fixedDeltaTime)
      ensures !frozen ==> pose == Turned(old(pose), eulerPitch, RotationStep(smoothPitchChange, fixedDeltaTime, pitchSpeed),
                                         eulerYaw, RotationStep(smoothYawChange, fixedDeltaTime, yawSpeed))
    {
      if frozen {
        return;
      }
      smoothPitchChange := MoveTowards(smoothPitchChange, pitchChange, 2.0 * fixedDeltaTime);
      smoothYawChange := MoveTowards(smoothYawChange, yawChange, 2.0 * fixedDeltaTime);
      var pitchStep := RotationStep(smoothPitchChange, fixedDeltaTime, pitchSpeed);
      var yawStep := RotationStep(smoothYawChange, fixedDeltaTime, yawSpeed);
      pose := Turned(pose, eulerPitch, pitchStep, eulerYaw, yawStep);
    }

    method FreezeAgent()
      modifies this`frozen
      ensures frozen
    {
      frozen := true;
    }

    method UnfreezeAgent()
      modifies this`frozen
      ensures !frozen
    {
      frozen := false;
    }

    /** One pass over the area's flowers keeping the running choice. */
    method UpdateNearestFlower(dist: Flower -> real)
      modifies this`nearestFlower
      ensures nearestFlower == Nearest(old(nearestFlower), area.flowers, dist)
    {
      var i := 0;
      while i < |area.flowers|
        invariant 0 <= i <= |area.flowers|
        invariant nearestFlower == Nearest(old(nearestFlower), area.flowers[..i], dist)
      {
        var flower := area.flowers[i];
        assert area.flowers[..i + 1][..i] == area.flowers[..i];
        if nearestFlower == null && flower.HasNectar() {
          nearestFlower := flower;
        } else if flower.HasNectar() {
          if !nearestFlower.HasNectar() || dist(flower) < dist(nearestFlower) {
            nearestFlower := flower;
          }
        }
        i := i + 1;
      }
      assert area.flowers[..i] == area.flowers;
    }

    /** Draw candidate poses until one is collision-free, at most 100 times, and move there. */
    method MoveToSafeRandomPosition(inFrontOfFlower: bool, candidate: nat -> Pose, isSafe: Pose -> bool)
      returns (threw: bool)
      modifies this`pose
      ensures threw <==> inFrontOfFlower && |area.flowers| == 0
      ensures threw ==> pose == old(pose)
      ensures !threw ==> PlacedBySearch(pose, candidate, isSafe)
    {
      threw := inFrontOfFlower && |area.flowers| == 0;
      if threw {
        return;
      }
      var found, attempts;
      pose, found, attempts := SearchSafePose(candidate, isSafe);
      assert candidate(attempts - 1) == pose;
    }

    /**
     * A trigger contact: a nectar collider close enough to the beak tip feeds
     * from its flower. `facing` is the dot product of the bird's forward
     * vector with the nearest flower's inward normal. `threw` reports a
     * collider missing from the dictionary, or (in training) a null nearest
     * flower when the reward reads its normal.
     */
    method TriggerEnterOrStay(colliderTag: string, collider: ColliderId, beakDistance: real, facing: real, dist: Flower -> real)
      returns (threw: bool)
      requires area.Valid()
      modifies this`nectarObtained, this`rewardTotal, this`nearestFlower, set f | f in area.flowers
      ensures frozen == old(frozen) && pose == old(pose) && maxStep == old(maxStep)
      ensures smoothPitchChange == old(smoothPitchChange) && smoothYawChange == old(smoothYawChange)
      ensures !(colliderTag == NectarTag && beakDistance < BeakTipRadius) ==>
                !threw && nectarObtained == old(nectarObtained) && rewardTotal == old(rewardTotal) &&
                nearestFlower == old(nearestFlower) && forall g :: g in area.flowers ==> unchanged(g)
      ensures colliderTag == NectarTag && beakDistance < BeakTipRadius && collider !in area.nectarFlowerDictionary ==>
                threw && nectarObtained == old(nectarObtained) && rewardTotal == old(rewardTotal) &&
                nearestFlower == old(nearestFlower) && forall g :: g in area.flowers ==> unchanged(g)
      ensures colliderTag == NectarTag && beakDistance < BeakTipRadius && collider in area.nectarFlowerDictionary ==>
                var flower := area.nectarFlowerDictionary[collider];
                && flower in area.flowers
                && flower.nectarAmount == NectarLeft(NectarPerContact, old(flower.nectarAmount))
                && (!flower.HasNectar() ==>
                      !flower.flowerColliderActive && !flower.nectarColliderActive && flower.colour == EmptyColour)
                && (flower.HasNectar() ==>
                      flower.flowerColliderActive == old(flower.flowerColliderActive) &&
                      flower.nectarColliderActive == old(flower.nectarColliderActive) && flower.colour == old(flower.colour))
                && nectarObtained == old(nectarObtained) + NectarTaken(NectarPerContact, old(flower.nectarAmount))
                && (threw <==> trainingMode && old(nearestFlower) == null)
                && rewardTotal == old(rewardTotal) + (if trainingMode && !threw then NectarReward(facing) else 0.0)
                && (!threw && !flower.HasNectar() ==> nearestFlower == Nearest(old(nearestFlower), area.flowers, dist))
                && (threw || flower.HasNectar() ==> nearestFlower == old(nearestFlower))
                && forall g :: g in area.flowers && g != flower ==> unchanged(g)
    {
      threw := false;
      if colliderTag == NectarTag && beakDistance < BeakTipRadius {
        var found := area.GetFlowerFromNectar(collider);
        if found.None? {
          threw := true;
          return;
        }
        var flower := found.value;
        var nectarReceived := flower.Feed(NectarPerContact);
        nectarObtained := nectarObtained + nectarReceived;
        if trainingMode {
          if nearestFlower == null {
            threw := true;
            return;
          }
          AddReward(NectarReward(facing));
        }
        if !flower.HasNectar() {
          UpdateNearestFlower(dist);
        }
      }
    }

    /** Hitting the area boundary costs 0.5 in training. */
    method OnCollisionEnter(colliderTag: string)
      modifies this`rewardTotal
      ensures rewardTotal == old(rewardTotal) + (if trainingMode && colliderTag == BoundaryTag then BoundaryPenalty else 0.0)
    {
      if trainingMode && colliderTag == BoundaryTag {
        AddReward(BoundaryPenalty);
      }
    }

    /** Re-select when there is no nearest flower or it ran dry (another bird may have emptied it). */
    method FixedUpdate(dist: Flower -> real)
      modifies this`nearestFlower
      ensures old(nearestFlower) == null || !old(nearestFlower).HasNectar() ==>
                nearestFlower == Nearest(old(nearestFlower), area.flowers, dist)
      ensures old(nearestFlower) != null && old(nearestFlower).HasNectar() ==> nearestFlower == old(nearestFlower)
      ensures SomeHasNectar(area.flowers) ==> nearestFlower != null && nearestFlower.HasNectar()
    {
      if (nearestFlower != null && !nearestFlower.HasNectar()) || nearestFlower == null {
        UpdateNearestFlower(dist);
        if SomeHasNectar(area.flowers) {
          NearestHasNectar(old(nearestFlower), area.flowers, dist);
        }
      }
    }
  }
}
