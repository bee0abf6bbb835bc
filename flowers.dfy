/**
 * A flower holding nectar (Assets/Hummingbird/Scripts/Flower.cs).
 * Nectar amounts are reals; IEEE single-precision rounding is not modelled.
 */
module Flowers {

  /** Identity of a collider component in the scene. */
  type ColliderId = nat

  /** Whether the flower's material shows the full or the empty colour. */
  datatype Colour = FullColour | EmptyColour

  /** The amount a refilled flower holds. */
  const FullNectar: real := 1.0

  /** Unity's Mathf.Clamp: the lower bound is compared first, then the upper one. */
  function Clamp(value: real, min: real, max: real): (r: real)
    ensures min <= max ==> min <= r <= max
    ensures min <= value <= max ==> r == value
    ensures value < min ==> r == min
    ensures min <= value && value > max ==> r == max
  {
    if value < min then min else if value > max then max else value
  }

  /** What one Feed(amount) call hands out of a flower that holds `available`. */
  function NectarTaken(amount: real, available: real): real
  {
    Clamp(amount, 0.0, available)
  }

  /** What the flower holds after that Feed call: the rest, floored at zero. */
  function NectarLeft(amount: real, available: real): real
  {
    var rest := available - NectarTaken(amount, available);
    if rest <= 0.0 then 0.0 else rest
  }

  /** Feed never hands out a negative amount nor more than there is, and conserves nectar. */
  lemma FeedConservesNectar(amount: real, available: real)
    requires 0.0 <= available
    ensures 0.0 <= NectarTaken(amount, available) <= available
    ensures 0.0 <= NectarLeft(amount, available) <= available
    ensures NectarLeft(amount, available) + NectarTaken(amount, available) == available
    ensures 0.0 <= amount <= available ==> NectarTaken(amount, available) == amount
  {
  }

  /** Asking for nothing (or a negative amount) takes nothing and leaves the amount as it was. */
  lemma FeedNonPositiveIsNoOp(amount: real, available: real)
    requires amount <= 0.0 && 0.0 <= available
    ensures NectarTaken(amount, available) == 0.0
    ensures NectarLeft(amount, available) == available
  {
  }

  /** The events that change a flower's nectar: a Feed call or a resetFlower call. */
  datatype FlowerEvent = Fed(amount: real) | Refilled

  /** The nectar amount after a run of events, starting from `start`. */
  function AmountAfter(start: real, events: seq<FlowerEvent>): real
    decreases |events|
  {
    if events == [] then start
    else
      var before := AmountAfter(start, events[..|events| - 1]);
      match events[|events| - 1]
      case Fed(amount) => NectarLeft(amount, before)
      case Refilled => FullNectar
  }

  /**
   * Starting from any amount in [0, 1] (the default 0 included), every run of
   * Feed and resetFlower calls keeps the amount in [0, 1].
   */
  lemma {:induction false} AmountStaysInUnitRange(start: real, events: seq<FlowerEvent>)
    requires 0.0 <= start <= FullNectar
    ensures 0.0 <= AmountAfter(start, events) <= FullNectar
    decreases |events|
  {
    if events != [] {
      var before := AmountAfter(start, events[..|events| - 1]);
      AmountStaysInUnitRange(start, events[..|events| - 1]);
      if events[|events| - 1].Fed? {
        FeedConservesNectar(events[|events| - 1].amount, before);
      }
    }
  }

  class Flower {
    /** The trigger collider of the nectar, the key of the area's lookup dictionary. */
    const nectarCollider: ColliderId
    var nectarAmount: real
    /** Whether the game objects of the solid flower collider and of the nectar collider are active. */
    var flowerColliderActive: bool
    var nectarColliderActive: bool
    var colour: Colour

    /** A flower as authored in the scene: no nectar yet (the property's default), colliders active. */
    constructor (nectarCollider: ColliderId)
      ensures this.nectarCollider == nectarCollider
      ensures nectarAmount == 0.0 && flowerColliderActive && nectarColliderActive && colour == FullColour
    {
      this.nectarCollider := nectarCollider;
      nectarAmount := 0.0;
      flowerColliderActive := true;
      nectarColliderActive := true;
      colour := FullColour;
    }

    predicate HasNectar()
      reads this
    {
      nectarAmount > 0.0
    }

    /** Takes up to `amount` nectar; an emptied flower switches its colliders off and turns the empty colour. */
    method Feed(amount: real) returns (taken: real)
      modifies this
      ensures taken == NectarTaken(amount, old(nectarAmount))
      ensures nectarAmount == NectarLeft(amount, old(nectarAmount))
      ensures !HasNectar() ==>
                nectarAmount == 0.0 && !flowerColliderActive && !nectarColliderActive && colour == EmptyColour
      ensures HasNectar() ==>
                flowerColliderActive == old(flowerColliderActive) &&
                nectarColliderActive == old(nectarColliderActive) && colour == old(colour)
    {
      taken := Clamp(amount, 0.0, nectarAmount);
      nectarAmount := nectarAmount - taken;
      if nectarAmount <= 0.0 {
        nectarAmount := 0.0;
        flowerColliderActive := false;
        nectarColliderActive := false;
        colour := EmptyColour;
      }
    }

    /** resetFlower: refill to the full amount, reactivate both colliders, show the full colour. */
    method ResetFlower()
      modifies this
      ensures nectarAmount == FullNectar && HasNectar()
      ensures flowerColliderActive && nectarColliderActive && colour == FullColour
    {
      nectarAmount := FullNectar;
      flowerColliderActive := true;
      nectarColliderActive := true;
      colour := FullColour;
    }
  }
}
