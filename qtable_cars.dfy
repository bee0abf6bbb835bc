/**
 * The tabular-learning car (Assets/Scripts/QtableCar.cs): it allocates a
 * table of action values, fills it with small random values, and prepares
 * ray casts. The random draws and the ray hits are inputs; driving
 * (CarAccelerate, CarTurning) is physics and not part of this model.
 */
module QtableCars {

  /** Mathf.PI / 2 and Mathf.Rad2Deg, as reals. */
  const HalfPi: real := 1.5707963
  const Rad2Deg: real := 57.29578

  /** Every cell of the table is drawn from Random.Range(-0.1, 0.1). */
  const InitBound: real := 0.1

  /** The number of table columns: five slots per ray plus the other state inputs. */
  function Columns(raySize: int, stateSize: int): int
  {
    raySize * 5 + stateSize
  }

  /** The reach of ray `index`: the full range ahead, half of it for negative (rearward) indices. */
  function RayRange(index: int, range: real): (r: real)
    ensures index >= 0 ==> r == range
    ensures index < 0 && range > 0.0 ==> 0.0 < r < range
    ensures index < 0 ==> r + r == range
  {
    if index >= 0 then range else range / 2.0
  }

  /** The angle of ray `index` in the ground plane, spread by `rad` per index. */
  function RayAngle(index: int, rad: real): (a: real)
    ensures rad == 0.0 ==> a == (if index >= 0 then HalfPi else -HalfPi)
    ensures rad > 0.0 && index >= 0 ==> a >= HalfPi - rad
  {
    if index >= 0 then HalfPi - rad + rad * index as real
    else -HalfPi + rad - rad * index as real
  }

  class QtableCar {
    const actionSize: int
    const stateSize: int
    const raySize: int
    const range: real
    /** The angle between neighbouring rays, in radians. */
    var rad: real
    /** The action-value table, allocated by Awake: one row per action. */
    var Q: array2?<real>

    constructor (actionSize: int, stateSize: int, raySize: int, range: real)
      ensures this.actionSize == actionSize && this.stateSize == stateSize
      ensures this.raySize == raySize && this.range == range
      ensures rad == 0.0 && Q == null
    {
      this.actionSize := actionSize;
      this.stateSize := stateSize;
      this.raySize := raySize;
      this.range := range;
      rad := 0.0;
      Q := null;
    }

    /** Start rescales the spread by Rad2Deg (from 0 it stays 0). */
    method Start()
      modifies this`rad
      ensures rad == Rad2Deg * old(rad)
      ensures old(rad) == 0.0 ==> rad == 0.0
    {
      rad := Rad2Deg * rad;
    }

    /**
     * Allocate the actionSize x (raySize * 5 + stateSize) table and fill it
     * row by row; the k-th random draw lands in cell (k / columns, k % columns).
     * A negative dimension makes the allocation throw and leaves Q as it was.
     */
    method Awake(draws: nat -> real) returns (threw: bool)
      modifies this`Q
      ensures threw <==> actionSize < 0 || Columns(raySize, stateSize) < 0
      ensures threw ==> Q == old(Q)
      ensures !threw ==> Q != null && fresh(Q)
      ensures !threw ==> Q.Length0 == actionSize && Q.Length1 == Columns(raySize, stateSize)
      ensures !threw ==> forall i, j :: 0 <= i < Q.Length0 && 0 <= j < Q.Length1 ==> Q[i, j] == draws(i * Q.Length1 + j)
      ensures !threw && (forall k :: -InitBound <= draws(k) <= InitBound) ==>
                forall i, j :: 0 <= i < Q.Length0 && 0 <= j < Q.Length1 ==> -InitBound <= Q[i, j] <= InitBound
    {
      var allobs := Columns(raySize, stateSize);
      if actionSize < 0 || allobs < 0 {
        return true;
      }
      var table := new real[actionSize, allobs];
      var i := 0;
      while i < actionSize
        invariant 0 <= i <= actionSize
        invariant forall r, c :: 0 <= r < i && 0 <= c < allobs ==> table[r, c] == draws(r * allobs + c)
      {
        var j := 0;
        while j < allobs
          invariant 0 <= j <= allobs
          invariant forall r, c :: 0 <= r < i && 0 <= c < allobs ==> table[r, c] == draws(r * allobs + c)
          invariant forall c :: 0 <= c < j ==> table[i, c] == draws(i * allobs + c)
        {
          table[i, j] := draws(i * allobs + j);
          j := j + 1;
        }
        i := i + 1;
      }
      Q := table;
      threw := false;
    }

    /** The per-step update is empty: the table keeps its shape and contents. */
    method FixedUpdate()
      ensures Q == old(Q)
      ensures Q != null ==> forall i, j :: 0 <= i < Q.Length0 && 0 <= j < Q.Length1 ==> Q[i, j] == old(Q[i, j])
    {
    }

    /** The direction and reach RayCaster gives ray `index`; what it hits is not used. */
    method RayCaster(index: int) returns (angle: real, reach: real)
      ensures angle == RayAngle(index, rad) && reach == RayRange(index, range)
      ensures index < 0 && range > 0.0 ==> reach < range
    {
      angle := RayAngle(index, rad);
      reach := RayRange(index, range);
    }
  }
}
