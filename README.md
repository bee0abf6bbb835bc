# Hummingbird foraging and tabular-learning scripts, modelled in Dafny

This project models the logic inside six Unity scripts of F23QLearning:

- **Flowers.** A `Flower` holds a nectar amount. A bird feeds from it in clamped steps, and it can be refilled. When its nectar runs out, its colliders turn off and its colour changes to empty.
- **Flower areas.** A `FlowerArea` walks its scene tree once to collect flower plants and flowers. It builds a dictionary from each nectar collider to its flower, answers lookups in that dictionary, and refills every flower it collected.
- **Hummingbird agents.** Two birds share the same foraging behaviour:
  - the ML-Agents `HummingbirdAgent`;
  - the script-only `QHummingbird`.

  Both keep track of the nearest flower that still has nectar. They smooth, wrap and clamp their pitch, and try at most 100 spawn poses. They take nectar on contact with the beak tip and earn training rewards.
- **QHummingbird's state.** `QHummingbird` also condenses its ray casts and the nectar it has obtained into a single integer state. The digits of that state use base `rayPoss`.
- **Track areas.** A `TrackArea` collects the checkpoints of a race track and re-enables their box colliders.
- **The car.** A `QtableCar` allocates its action-value table and fills it with random values.

## Modelling choices

Physics and the engine are inputs to the model:

- A ray's hit is an `Option<string>`: the hit collider's tag, or nothing.
- A distance is a function `Flower -> real`.
- The overlap test at a spawn pose is a predicate `isSafe`.
- The facing of the bird toward the flower (a dot product) is a `real`.
- Each random draw is an input value or a function of the draw's number.

Other choices:

- Floats become `real`.
- A C# exception becomes a `threw` result, and the model then stops the operation where the exception would. This covers a duplicate key in `Dictionary.Add`, a missing key in a dictionary lookup, an index into an empty list, a null dereference, and a negative array dimension.
- Scene objects are a tree datatype `SceneTree.Node`. Each node has a tag, an optional `Flower`, an optional `BoxCollider` and its children. `Flower` and `BoxCollider` are classes, because the scripts change them in place.
- `Debug.Assert` only logs in a Unity player build, so the model ignores it.

Modules:

| module | file |
|---|---|
| `Wrappers` | wrappers.dfy |
| `Flowers` | flowers.dfy |
| `SceneTree` | scene_tree.dfy |
| `FlowerAreas` | flower_areas.dfy |
| `TrackAreas` | track_areas.dfy |
| `Foraging` | foraging.dfy (logic shared by both birds) |
| `HummingbirdAgents` | hummingbird_agents.dfy |
| `StateEncoding` | state_encoding.dfy |
| `QHummingbirds` | q_hummingbirds.dfy |
| `QtableCars` | qtable_cars.dfy |

### Behaviour of the code worth knowing

- **No learning loop.** The scripts contain no Q-learning update, no epsilon-greedy choice and no step or episode loop. `QtableCar` only allocates and fills `Q`, its `FixedUpdate` is empty, and nothing reads `Q`.
- **`raySize` may be odd.** Any value is accepted. The code casts 3 rays, `raySize` rays or `raySize + 1` rays (`StateEncoding.RayCount`).
- **The reward resets per episode.** Only `QHummingbird.OnEpisodeBegin` clears `reward`; `Restart` does not.
- **Fractional nectar shares digits with the rays.** The nectar term `(int)(rayPoss^raySize * nectarObtained)` separates from the ray digits only for whole units of nectar; the bird gains nectar 0.01 at a time (`StateEncoding.FractionalNectarCollides`).
- **A negative dimension throws.** A negative table dimension makes the allocation in `QtableCar.Awake` throw.

## Model

| member | source | states |
|---|---|---|
| Flowers.Clamp | Assets/Hummingbird/Scripts/Flower.cs:64 | Mathf.Clamp compares with the lower bound first: below min the result is min, otherwise above max it is max, and inside the range it is the value; so it lies in [min, max] whenever min <= max |
| Flowers.FeedConservesNectar | Assets/Hummingbird/Scripts/Flower.cs:61-85 | a feed takes between 0 and the available nectar; what is taken plus what is left equals what was there; an amount within the available nectar is taken exactly |
| Flowers.FeedNonPositiveIsNoOp | Assets/Hummingbird/Scripts/Flower.cs:64-67 | feeding a non-positive amount takes nothing and leaves the amount unchanged |
| Flowers.AmountStaysInUnitRange | Assets/Hummingbird/Scripts/Flower.cs:51-102 | from any amount in [0, 1], every sequence of feeds and refills keeps the amount in [0, 1] |
| Flowers.Flower.constructor | Assets/Hummingbird/Scripts/Flower.cs:51-59 | a new flower has no nectar, keeps the nectar collider it is given, and starts with both colliders active and the full colour |
| Flowers.Flower.Feed | Assets/Hummingbird/Scripts/Flower.cs:61-85 | returns the clamped amount taken and subtracts it; once the flower is empty, its amount is 0, both colliders are off and its colour is empty; otherwise the flags are untouched |
| Flowers.Flower.ResetFlower | Assets/Hummingbird/Scripts/Flower.cs:88-102 | the amount is 1 (so the flower has nectar), both colliders are active and the colour is full |
| FlowerAreas.IndexKeys | Assets/Hummingbird/Scripts/FlowerArea.cs:79-81 | a collider is a key of the dictionary built from a flower list iff some listed flower has that nectar collider |
| FlowerAreas.IndexFindsEveryFlower | Assets/Hummingbird/Scripts/FlowerArea.cs:79-81 | with distinct nectar colliders, the dictionary has one entry per flower and maps each flower's collider to that flower |
| FlowerAreas.DistinctPrefix | Assets/Hummingbird/Scripts/FlowerArea.cs:79-81 | distinct colliders in a list imply distinct colliders in its prefix |
| FlowerAreas.ThrowIsDuplicate | Assets/Hummingbird/Scripts/FlowerArea.cs:81 | a duplicate collider among earlier flowers remains a duplicate after more are appended |
| FlowerAreas.VisitChildrenCollects | Assets/Hummingbird/Scripts/FlowerArea.cs:58-94 | the walk over a child list finishes without an exception iff the nectar colliders of the flowers found so far, followed by those found by the independent preorder reference FlowersIn, are distinct; when it finishes, the plants and flowers are the old lists followed by PlantsIn and FlowersIn, and the dictionary indexes exactly those flowers |
| FlowerAreas.LastChildCollects | Assets/Hummingbird/Scripts/FlowerArea.cs:58-94 | once the earlier children were walked without an exception, visiting the last child keeps the same agreement with PlantsIn, FlowersIn and the index, including the iff for finishing |
| FlowerAreas.VisitChildCollects | Assets/Hummingbird/Scripts/FlowerArea.cs:62-90 | the same for one child: a plant is recorded and searched, a non-plant flower is recorded and not searched, and anything else is searched |
| FlowerAreas.VisitChildrenKeepsConsistent | Assets/Hummingbird/Scripts/FlowerArea.cs:58-94 | whether or not the walk throws, every dictionary entry maps a collider to a listed flower with that collider, and the flower list only grows |
| FlowerAreas.VisitChildKeepsConsistent | Assets/Hummingbird/Scripts/FlowerArea.cs:62-90 | the same for one child |
| FlowerAreas.StartFromAwake | Assets/Hummingbird/Scripts/FlowerArea.cs:43-55 | from the empty collections made by Awake, Start succeeds iff the nectar colliders are distinct; then the lists are exactly the preorder plants and flowers, the dictionary has one entry per flower, and a lookup by each flower's collider returns that flower |
| FlowerAreas.VisitChildrenThrowPropagates | Assets/Hummingbird/Scripts/FlowerArea.cs:60-62 | once a child throws, the later children are not visited and the state is the one at the throw |
| FlowerAreas.FlowerArea.constructor | Assets/Hummingbird/Scripts/FlowerArea.cs:43-49 | Awake leaves the plant list, the flower list and the dictionary empty |
| FlowerAreas.FlowerArea.Start | Assets/Hummingbird/Scripts/FlowerArea.cs:51-55 | Start walks the area's children: it reports a throw exactly when the walk throws, and leaves the walk's collections |
| FlowerAreas.FlowerArea.FindChildFlowers | Assets/Hummingbird/Scripts/FlowerArea.cs:58-94 | the recursive method leaves the collections of the walk VisitChildren, throws when it does, and keeps the dictionary consistent |
| FlowerAreas.FlowerArea.GetFlowerFromNectar | Assets/Hummingbird/Scripts/FlowerArea.cs:38-41 | the lookup succeeds iff the collider is a key (None models KeyNotFoundException), and it returns a listed flower owning that collider |
| FlowerAreas.FlowerArea.ResetFlowers | Assets/Hummingbird/Scripts/FlowerArea.cs:20-36 | every listed flower is refilled to 1 with both colliders active and the full colour; no other object changes |
| TrackAreas.CollectedIffReached | Assets/Scripts/TrackArea.cs:36-47 | a node is collected iff it is reached from the given children through a chain of nodes that are all tagged CheckPoint |
| TrackAreas.CollectedAreCheckPoints | Assets/Scripts/TrackArea.cs:41-43 | only nodes tagged CheckPoint are collected |
| TrackAreas.CollectedAreInside | Assets/Scripts/TrackArea.cs:38-46 | every collected node is one of the searched children or lies below one of them, and so is no larger than all of them together |
| TrackAreas.RootNeverCollected | Assets/Scripts/TrackArea.cs:12 | the area's own root is never among its checkpoints |
| TrackAreas.CollectionFollowsChildOrder | Assets/Scripts/TrackArea.cs:38-45 | the collection over two runs of siblings is the collection over the first followed by that over the second (preorder in child order) |
| TrackAreas.TrackArea.constructor | Assets/Scripts/TrackArea.cs:21-24 | Awake leaves the checkpoint list empty |
| TrackAreas.TrackArea.Start | Assets/Scripts/TrackArea.cs:10-13 | Start appends exactly the checkpoints collected below the root |
| TrackAreas.TrackArea.FindCheckPoints | Assets/Scripts/TrackArea.cs:36-47 | the recursive method appends exactly CheckPointsIn(children), descending only into checkpoints |
| TrackAreas.TrackArea.AreaReset | Assets/Scripts/TrackArea.cs:26-34 | every checkpoint's box collider is enabled, only those colliders change, and an already enabled collider is left unchanged (so a second reset changes nothing) |
| Foraging.Nearest | Assets/Hummingbird/Scripts/HummingbirdAgent.cs:255-275 | the selection is the previous choice or one of the listed flowers |
| Foraging.NearestIsFirstClosest | Assets/Hummingbird/Scripts/HummingbirdAgent.cs:257-274 | if some candidate has nectar (the current choice while it still has nectar, then the list), the result is the first closest such candidate; otherwise the choice is kept |
| Foraging.NearestHasNectar | Assets/Hummingbird/Scripts/HummingbirdAgent.cs:257-274 | if some listed flower has nectar, the nearest flower afterwards is not null and has nectar |
| Foraging.NearestUnchangedWithoutNectar | Assets/Hummingbird/Scripts/HummingbirdAgent.cs:257-274 | if no listed flower has nectar, the nearest flower is left as it was |
| Foraging.NextPitch | Assets/Hummingbird/Scripts/HummingbirdAgent.cs:140-142 | the new pitch lies in [-80, 80]; within the range it is the raw sum; a sum in [280, 440] wraps down by 360; a sum in (80, 180] or above 440 clamps to 80; a sum below -80 or in (180, 280) clamps to -80 |
| Foraging.Turned | Assets/Hummingbird/Scripts/HummingbirdAgent.cs:140-146 | the rotation keeps the position, uses the wrapped and clamped pitch (inside [-80, 80]) and the unclamped yaw, and has no roll |
| Foraging.MoveTowards | Assets/Hummingbird/Scripts/HummingbirdAgent.cs:135-136 | a target within the step is reached; otherwise the value moves by exactly the step toward it and stays between the start and the target |
| Foraging.SmoothingStaysWithinReach | Assets/Hummingbird/Scripts/HummingbirdAgent.cs:135-136 | for every start and target, a smoothed action held steady stays between its start and the target and moves by at most the updates' combined reach |
| Foraging.SmoothingReachesTarget | Assets/Hummingbird/Scripts/HummingbirdAgent.cs:135-136 | a steady action is reached once the updates' combined reach covers the distance; before that, the remaining distance is the original distance less that reach |
| Foraging.NectarReward | Assets/Hummingbird/Scripts/HummingbirdAgent.cs:384-385 | the nectar reward .01 + .02 * clamp01(facing) lies in [0.01, 0.03]; it is 0.01 when the bird faces away and 0.03 when it faces the flower squarely |
| Foraging.SearchSafePose | Assets/Hummingbird/Scripts/HummingbirdAgent.cs:285-335 | between 1 and 100 attempts; the pose is the last candidate drawn; every earlier candidate was unsafe; failing to find a safe pose means all 100 attempts were used |
| HummingbirdAgents.HummingbirdAgent.constructor | Assets/Hummingbird/Scripts/HummingbirdAgent.cs:41-60 | a new agent is unfrozen, has no nectar, no nearest flower and no smoothed rotation |
| HummingbirdAgents.HummingbirdAgent.Initialize | Assets/Hummingbird/Scripts/HummingbirdAgent.cs:63-73 | outside training MaxStep becomes 0; in training it is kept |
| HummingbirdAgents.HummingbirdAgent.AddReward | Assets/Hummingbird/Scripts/HummingbirdAgent.cs:385 | the agent's reward grows by exactly the amount given |
| HummingbirdAgents.HummingbirdAgent.OnEpisodeBegin | Assets/Hummingbird/Scripts/HummingbirdAgent.cs:76-106 | nectar obtained is 0; in training every flower is refilled with both colliders active and the full colour, outside training no flower changes; it throws iff the spawn must be in front of a flower (always outside training, by coin flip in training) and there are no flowers, and then the pose and nearest flower are kept; otherwise the pose comes from the bounded search and the nearest flower is reselected; reward, freeze state, episode length and smoothed actions are kept |
| HummingbirdAgents.HummingbirdAgent.OnActionReceived | Assets/Hummingbird/Scripts/HummingbirdAgent.cs:112-147 | a frozen agent changes nothing; otherwise both actions are smoothed by MoveTowards with step 2 * fixedDeltaTime, the pitch is wrapped and clamped into [-80, 80], the yaw is not clamped, and the roll is 0 |
| HummingbirdAgents.HummingbirdAgent.FreezeAgent | Assets/Hummingbird/Scripts/HummingbirdAgent.cs:234-239 | the agent is frozen |
| HummingbirdAgents.HummingbirdAgent.UnfreezeAgent | Assets/Hummingbird/Scripts/HummingbirdAgent.cs:244-249 | the agent is no longer frozen |
| HummingbirdAgents.HummingbirdAgent.UpdateNearestFlower | Assets/Hummingbird/Scripts/HummingbirdAgent.cs:255-275 | the foreach loop leaves exactly the selection Nearest, so the nearest-flower lemmas apply |
| HummingbirdAgents.HummingbirdAgent.MoveToSafeRandomPosition | Assets/Hummingbird/Scripts/HummingbirdAgent.cs:283-342 | it throws iff a spot in front of a flower is wanted and the flower list is empty; otherwise the pose is the first safe candidate among at most 100, or the 100th |
| HummingbirdAgents.HummingbirdAgent.TriggerEnterOrStay | Assets/Hummingbird/Scripts/HummingbirdAgent.cs:362-394 | nothing at all changes unless a nectar collider touches the beak tip; an unknown collider throws and changes nothing; otherwise the flower loses what it gives (turning its colliders off and its colour empty exactly when it runs dry), nectar obtained grows by the same amount, a training reward in [0.01, 0.03] is added (or it throws when there is no nearest flower), an emptied flower triggers reselection, every other flower is unchanged, and pose and smoothed actions are kept |
| HummingbirdAgents.HummingbirdAgent.OnCollisionEnter | Assets/Hummingbird/Scripts/HummingbirdAgent.cs:400-407 | hitting the boundary costs exactly 0.5 in training and nothing otherwise |
| HummingbirdAgents.HummingbirdAgent.FixedUpdate | Assets/Hummingbird/Scripts/HummingbirdAgent.cs:421-428 | the nearest flower is reselected when it is missing or empty; afterwards, if any flower has nectar, the nearest flower has nectar |
| StateEncoding.Pow | Assets/Hummingbird/Scripts/QHummingbird.cs:316 | a positive base gives a positive power |
| StateEncoding.RayCount | Assets/Hummingbird/Scripts/QHummingbird.cs:401-408 | the rays cast are always an odd number, at least 3 and at least raySize, and for raySize >= 3 at most raySize + 1 |
| StateEncoding.Trunc | Assets/Hummingbird/Scripts/QHummingbird.cs:410 | the (int) cast truncates toward zero: it is within 1 of the value, on the side of zero |
| StateEncoding.Digits | Assets/Hummingbird/Scripts/QHummingbird.cs:401-408 | there is one digit per ray cast |
| StateEncoding.Decode | Assets/Hummingbird/Scripts/QHummingbird.cs:316 | reading back the digits of a state yields one digit per ray |
| StateEncoding.UnknownTagWeighsNothing | Assets/Hummingbird/Scripts/QHummingbird.cs:311-318 | a tag not in the list matches no entry |
| StateEncoding.UnknownTagIsMiss | Assets/Hummingbird/Scripts/QHummingbird.cs:309-326 | a hit on an unrecognised tag encodes exactly like a miss, as digit 0 |
| StateEncoding.DistinctTagWeight | Assets/Hummingbird/Scripts/QHummingbird.cs:311-318 | with distinct tags, a hit on tags[i] contributes exactly i + 1 |
| StateEncoding.DigitMeaning | Assets/Hummingbird/Scripts/QHummingbird.cs:309-326 | with distinct tags, a digit is at most the number of tags; it is 0 iff the ray missed or hit an unknown tag; it is i + 1 iff the ray hit tags[i] |
| StateEncoding.NumeralAppend | Assets/Hummingbird/Scripts/QHummingbird.cs:316 | appending a digit adds it at weight base^position |
| StateEncoding.RaySumStep | Assets/Hummingbird/Scripts/QHummingbird.cs:316 | casting ray k adds its digit times base^k to the ray part of the state |
| StateEncoding.FirstThreeRays | Assets/Hummingbird/Scripts/QHummingbird.cs:401-403 | the forward, up and down rays (indices 0, 1, 2) contribute their digits at weights 1, base and base^2 |
| StateEncoding.RayPairStep | Assets/Hummingbird/Scripts/QHummingbird.cs:404-408 | one pass of the side-ray loop, casting rays i and i + 1, adds both digits at weights base^i and base^(i+1) |
| StateEncoding.MultipleAtLeast | Assets/Hummingbird/Scripts/QHummingbird.cs:410 | arithmetic helper for the nectar term: a positive multiple of m is at least m |
| StateEncoding.MultiplyMonotone | Assets/Hummingbird/Scripts/QHummingbird.cs:410 | arithmetic helper for the nectar term: multiplying by a non-negative number preserves order |
| StateEncoding.DivModUnique | Assets/Hummingbird/Scripts/QHummingbird.cs:410 | arithmetic helper for the nectar term: the quotient and remainder of q * m + r with 0 <= r < m are q and r |
| StateEncoding.RealOfProduct | Assets/Hummingbird/Scripts/QHummingbird.cs:410 | arithmetic helper for the nectar term: converting an integer product to a real is the product of the conversions |
| StateEncoding.DecodeNumeral | Assets/Hummingbird/Scripts/QHummingbird.cs:316 | digits below the base round-trip: decoding their numeral gives them back |
| StateEncoding.NumeralBounds | Assets/Hummingbird/Scripts/QHummingbird.cs:316 | the numeral of n digits below the base is below base^n |
| StateEncoding.DigitsBelowBase | Assets/Hummingbird/Scripts/QHummingbird.cs:311-318 | with distinct tags and a base greater than their number, every ray digit is below the base |
| StateEncoding.DigitsAt | Assets/Hummingbird/Scripts/QHummingbird.cs:401-408 | digit k of the reading is what ray k hit |
| StateEncoding.DecodeRays | Assets/Hummingbird/Scripts/QHummingbird.cs:397-411 | with distinct tags and a base greater than their number, the ray part lies in [0, base^count), and its base-rayPoss digit k is what ray k hit |
| StateEncoding.RaySumDeterminesReadings | Assets/Hummingbird/Scripts/QHummingbird.cs:397-411 | under the same conditions, equal ray parts mean equal digits for every ray, and the same hit for every ray that hit a known tag |
| StateEncoding.ZeroBaseSeesOnlyFirstRay | Assets/Hummingbird/Scripts/QHummingbird.cs:397-411 | with rayPoss left at its initial 0 (it is never reassigned), the state is ray 0's digit, plus the truncated nectar only when raySize is 0 |
| StateEncoding.ZeroBaseCollides | Assets/Hummingbird/Scripts/QHummingbird.cs:397-411 | with rayPoss left at its initial 0 (it is never reassigned), two readings that agree on ray 0 give the same state |
| StateEncoding.EvenRaySizeOverlapsNectar | Assets/Hummingbird/Scripts/QHummingbird.cs:404-410 | for even raySize >= 4, the last ray has index raySize, so a hit on tags[0] there with no nectar gives the same state as a miss there with one unit of nectar |
| StateEncoding.SameDigits | Assets/Hummingbird/Scripts/QHummingbird.cs:401-408 | readings that agree on the first n rays have the same first n digits |
| StateEncoding.OddRaySizeSeparatesWholeNectar | Assets/Hummingbird/Scripts/QHummingbird.cs:401-410 | for odd raySize >= 3, a whole number of nectar units is the state divided by base^raySize, and the ray part is the remainder; this separation holds only for whole units |
| StateEncoding.FractionalNectarCollides | Assets/Hummingbird/Scripts/QHummingbird.cs:410 | a fractional nectar term falls among the ray digits: with base 3 and raySize 5, half a unit of nectar and no hits give state 121, the same as five hits on the first tag and no nectar |
| QHummingbirds.SumAppend | Assets/Hummingbird/Scripts/QHummingbird.cs:392-395 | adding a reward at the end adds it to the total |
| QHummingbirds.QHummingbird.constructor | Assets/Hummingbird/Scripts/QHummingbird.cs:35-72 | a new bird has reward 0 (the total of no rewards), state 0, no nectar and no nearest flower, and is unfrozen |
| QHummingbirds.QHummingbird.FreezeAgent | Assets/Hummingbird/Scripts/QHummingbird.cs:89-94 | the bird is frozen |
| QHummingbirds.QHummingbird.UnfreezeAgent | Assets/Hummingbird/Scripts/QHummingbird.cs:99-104 | the bird is no longer frozen |
| QHummingbirds.QHummingbird.AddReward | Assets/Hummingbird/Scripts/QHummingbird.cs:392-395 | the reward grows by r and stays the total of the rewards logged this episode |
| QHummingbirds.QHummingbird.Restart | Assets/Hummingbird/Scripts/QHummingbird.cs:107-138 | the same refill, throw, spawn and reselection rules, flower states and kept fields as the ML-Agents bird's OnEpisodeBegin; the reward, its log and the state are kept |
| QHummingbirds.QHummingbird.MoveToSafeRandomPosition | Assets/Hummingbird/Scripts/QHummingbird.cs:147-206 | throws iff a spot in front of a flower is wanted and there are no flowers; otherwise the bounded search places the bird |
| QHummingbirds.QHummingbird.UpdateNearestFlower | Assets/Hummingbird/Scripts/QHummingbird.cs:213-233 | the foreach loop leaves exactly the selection Nearest |
| QHummingbirds.QHummingbird.TriggerEnterOrStay | Assets/Hummingbird/Scripts/QHummingbird.cs:254-286 | as for the ML-Agents bird, including the fed flower's colliders and colour and every other flower unchanged; the state, pose and smoothed actions are untouched, and the reward log gains exactly the nectar reward when training and a nearest flower exists |
| QHummingbirds.QHummingbird.OnCollisionEnter | Assets/Hummingbird/Scripts/QHummingbird.cs:292-299 | the reward log gains -0.5 exactly for a boundary hit in training |
| QHummingbirds.QHummingbird.RayCaster | Assets/Hummingbird/Scripts/QHummingbird.cs:302-328 | a ray at index k adds rayPoss^k times the digit of its hit: the sum of i + 1 over every matching tags[i], or 0 for a miss |
| QHummingbirds.QHummingbird.AddObservation | Assets/Hummingbird/Scripts/QHummingbird.cs:397-411 | the state becomes Encode of the current readings and nectar, independent of the previous state, so the StateEncoding lemmas describe it |
| QHummingbirds.QHummingbird.BirdRotate | Assets/Hummingbird/Scripts/QHummingbird.cs:330-349 | smooths both actions, then applies the wrapped and clamped pitch and the free yaw, with no frozen check |
| QHummingbirds.QHummingbird.OnEpisodeBegin | Assets/Hummingbird/Scripts/QHummingbird.cs:357-390 | the reward is 0 with an empty log; nectar obtained is 0; refill (with colliders and colour), throw, spawn and reselection follow the same rules as the ML-Agents bird, flowers are untouched outside training, and the state and smoothed actions are kept |
| QHummingbirds.QHummingbird.FixedUpdate | Assets/Hummingbird/Scripts/QHummingbird.cs:416-423 | reselects when the nearest flower is missing or empty; afterwards, if any flower has nectar, the nearest flower has nectar |
| QtableCars.RayRange | Assets/Scripts/QtableCar.cs:107-117 | a ray ahead (index >= 0) reaches the full range; a rearward ray reaches half of it, which is strictly shorter for a positive range |
| QtableCars.RayAngle | Assets/Scripts/QtableCar.cs:107-117 | with no spread, every ray ahead points at pi/2 and every rearward ray at -pi/2; with a positive spread, rays ahead are at least pi/2 - rad |
| QtableCars.QtableCar.constructor | Assets/Scripts/QtableCar.cs:29-35 | no table is allocated yet, and the spread is 0 |
| QtableCars.QtableCar.Start | Assets/Scripts/QtableCar.cs:40-45 | the spread is rescaled by Rad2Deg, so a spread of 0 stays 0 |
| QtableCars.QtableCar.Awake | Assets/Scripts/QtableCar.cs:47-60 | it throws iff a dimension is negative; otherwise Q is a fresh actionSize x (raySize * 5 + stateSize) table with every cell written from the draws in row-major order, and every cell is in [-0.1, 0.1] when the draws are |
| QtableCars.QtableCar.FixedUpdate | Assets/Scripts/QtableCar.cs:64-67 | the table and its contents are unchanged |
| QtableCars.QtableCar.RayCaster | Assets/Scripts/QtableCar.cs:102-128 | the ray's angle and reach are RayAngle and RayRange; a rearward ray is shorter |

Definitions without a contract of their own are specified by the rows that use them:

- `Flowers.Flower.HasNectar` is the `hasNectar` getter (Flower.cs:53-59): it holds iff `nectarAmount > 0`. `Foraging.NearestHasNectar`, `Flowers.Flower.Feed` and `Flowers.Flower.ResetFlower` state what it means for the birds and the flower.
- `Flowers.NectarTaken` and `Flowers.NectarLeft` are the amounts one `Feed` call hands out and leaves (Flower.cs:64-72). Their rows are `Flowers.FeedConservesNectar`, `Flowers.FeedNonPositiveIsNoOp` and `Flowers.AmountStaysInUnitRange`.
- `FlowerAreas.VisitChildren` and `FlowerAreas.VisitChild` are the walk of FlowerArea.cs:58-94 over a child list and over one child. Their rows are `FlowerAreas.VisitChildrenCollects`, `FlowerAreas.VisitChildCollects`, `FlowerAreas.StartFromAwake` and `FlowerAreas.FlowerArea.FindChildFlowers`.
- `StateEncoding.MatchWeight` and `StateEncoding.TagDigit` are the tag loop of QHummingbird.cs:309-318. Their rows are `StateEncoding.UnknownTagWeighsNothing`, `StateEncoding.DistinctTagWeight`, `StateEncoding.DigitMeaning` and `QHummingbirds.QHummingbird.RayCaster`.
- `StateEncoding.Encode` is the whole state of QHummingbird.cs:397-411. Its rows are `QHummingbirds.QHummingbird.AddObservation`, `StateEncoding.DecodeRays`, `StateEncoding.ZeroBaseSeesOnlyFirstRay`, `StateEncoding.EvenRaySizeOverlapsNectar`, `StateEncoding.OddRaySizeSeparatesWholeNectar` and `StateEncoding.FractionalNectarCollides`.

## Left out

- Unity physics is not modelled: `Rigidbody` forces, velocities, `Sleep` and `WakeUp`, `Physics.Raycast`, `Physics.OverlapSphere` and `ClosestPoint`. Their results are inputs: a hit tag, a beak distance, a safety test.
- Vector and quaternion geometry is not modelled: `Vector3.Distance`, `Dot`, `normalized`, `Quaternion.Euler` and `LookRotation`, and trigonometry. Distances, the facing value and the current Euler angles are inputs. Each candidate spawn pose is a whole `Pose` drawn by the caller.
- The current Euler angles are not tied to the stored pose. Unity reads them back from the quaternion, in [0, 360), which the model does not reproduce.
- `Random.Range` and `Random.value` are inputs. This includes the random flower and distances of a spawn and the coin flip for spawning in front of a flower.
- The random plant rotations in `FlowerArea.ResetFlowers` are left out. They only turn plant transforms, and the plant list is still recorded.
- ML-Agents plumbing is left out: `CollectObservations`, `Heuristic`, the base class's step counting and the sensor API. Of the base class, only `MaxStep` and the accumulated reward are kept.
- Rendering and debug output are left out: `Debug.DrawRay`, `Debug.DrawLine`, `Update` and material colours. A colour is reduced to full or empty.
- `Debug.Assert` is left out: in a player build it only logs.
- Floating point is modelled as real arithmetic. There is no rounding of `float`, so the rewards and nectar amounts are exact reals.
- `StateEncoding.Encode`: 32-bit overflow of `state` and of `Mathf.Pow` cast to `int` is not modelled, because the integers are unbounded.
- `QtableCars.QtableCar.Awake`: 32-bit overflow of `raySize * 5 + stateSize` is not modelled.
- `QHummingbirds.QHummingbird` takes `raySize` as a natural number. A negative `raySize` would make `Mathf.Pow(0, raySize)` infinite, and the int cast of that is unspecified.
- `QtableCar.CarAccelerate`, `QtableCar.CarTurning` and CarController.cs are rigid-body velocity code and are not part of this model.
- `QtableCar.RayCaster` ignores what its ray hits, so the model gives only the ray's angle and reach.
- `QHummingbird.Move` only applies a force and is physics.
- `QHummingbird.drinkedFlower`, the `Start` component lookups, the fields set only in the inspector and `FlowerArea.areaDiameter` are not modelled. None of them has behaviour.
- `Flowers.Flower.constructor`: the scripts never set a flower's initial colour or collider state; the model takes the prefab to start full with active colliders.
- The Q-learning update, the epsilon-greedy policy and the episode loop are not modelled, because the code does not contain them.
