/**
 * The flower area (Assets/Hummingbird/Scripts/FlowerArea.cs): collects the
 * flower plants and flowers below its transform, indexes flowers by their
 * nectar collider, and refills every flower on reset.
 */
module FlowerAreas {
  import opened Wrappers
  import opened Flowers
  import opened SceneTree

  const FlowerPlantTag: string := "flower_plant"

  /** The three collections the walk fills. */
  datatype AreaState = AreaState(flowerPlants: seq<Node>, flowers: seq<Flower>, nectarFlowers: map<ColliderId, Flower>)

  /** How a walk ends: normally, or with Dictionary.Add throwing on a nectar collider already present. */
  datatype Walk = Done(state: AreaState) | Threw(state: AreaState)

  /** FindChildFlowers on a parent whose children are `cs`, applied to the collections `s`. */
  function VisitChildren(s: AreaState, cs: seq<Node>): Walk
    decreases cs
  {
    if cs == [] then Done(s)
    else
      match VisitChildren(s, cs[..|cs| - 1])
      case Threw(t) => Threw(t)
      case Done(t) => VisitChild(t, cs[|cs| - 1])
  }

  /** One iteration of FindChildFlowers' loop, on the child `c`. */
  function VisitChild(s: AreaState, c: Node): Walk
    decreases c
  {
    if c.tag == FlowerPlantTag then
      VisitChildren(s.(flowerPlants := s.flowerPlants + [c]), c.children)
    else if c.flower.Some? then
      var f := c.flower.value;
      var added := s.(flowers := s.flowers + [f]);
      if f.nectarCollider in s.nectarFlowers then Threw(added)
      else Done(added.(nectarFlowers := s.nectarFlowers[f.nectarCollider := f]))
    else
      VisitChildren(s, c.children)
  }

  /** The flowers below the children `cs`, independently of any dictionary: plants are searched, flowers are not. */
  function FlowersIn(cs: seq<Node>): seq<Flower>
    decreases cs
  {
    if cs == [] then [] else FlowersIn(cs[..|cs| - 1]) + FlowersOf(cs[|cs| - 1])
  }

  function FlowersOf(c: Node): seq<Flower>
    decreases c
  {
    if c.tag == FlowerPlantTag then FlowersIn(c.children)
    else if c.flower.Some? then [c.flower.value]
    else FlowersIn(c.children)
  }

  /** The flower plants below the children `cs`, each before the plants inside it. */
  function PlantsIn(cs: seq<Node>): seq<Node>
    decreases cs
  {
    if cs == [] then [] else PlantsIn(cs[..|cs| - 1]) + PlantsOf(cs[|cs| - 1])
  }

  function PlantsOf(c: Node): seq<Node>
    decreases c
  {
    if c.tag == FlowerPlantTag then [c] + PlantsIn(c.children)
    else if c.flower.Some? then []
    else PlantsIn(c.children)
  }

  /** No two flowers share a nectar collider. */
  ghost predicate DistinctColliders(fs: seq<Flower>)
  {
    forall i, j :: 0 <= i < j < |fs| ==> fs[i].nectarCollider != fs[j].nectarCollider
  }

  /** The dictionary that adding `fs` one by one builds. */
  function Index(fs: seq<Flower>): map<ColliderId, Flower>
    decreases |fs|
  {
    if fs == [] then map[] else Index(fs[..|fs| - 1])[fs[|fs| - 1].nectarCollider := fs[|fs| - 1]]
  }

  /** The dictionary is exactly the index of the flower list, and that list has no repeated collider. */
  ghost predicate Indexed(s: AreaState)
  {
    DistinctColliders(s.flowers) && s.nectarFlowers == Index(s.flowers)
  }

  /** Every dictionary entry leads to a listed flower with that very nectar collider. */
  ghost predicate Consistent(s: AreaState)
  {
    forall c :: c in s.nectarFlowers ==> s.nectarFlowers[c].nectarCollider == c && s.nectarFlowers[c] in s.flowers
  }

  /** The keys of the index are exactly the nectar colliders of the list. */
  lemma {:induction false} IndexKeys(fs: seq<Flower>, c: ColliderId)
    ensures c in Index(fs) <==> exists k :: 0 <= k < |fs| && fs[k].nectarCollider == c
    decreases |fs|
  {
    if fs != [] {
      var init := fs[..|fs| - 1];
      IndexKeys(init, c);
      if c in Index(init) {
        var k :| 0 <= k < |init| && init[k].nectarCollider == c;
        assert fs[k] == init[k];
      }
      if exists k :: 0 <= k < |fs| && fs[k].nectarCollider == c {
        var k :| 0 <= k < |fs| && fs[k].nectarCollider == c;
        if k < |init| {
          assert init[k] == fs[k];
        }
      }
    }
  }

  /** With distinct colliders, the index has one entry per flower and maps each flower's collider to it. */
  lemma {:induction false} IndexFindsEveryFlower(fs: seq<Flower>)
    requires DistinctColliders(fs)
    ensures |Index(fs)| == |fs|
    ensures forall k :: 0 <= k < |fs| ==> fs[k].nectarCollider in Index(fs) && Index(fs)[fs[k].nectarCollider] == fs[k]
    decreases |fs|
  {
    if fs != [] {
      var init := fs[..|fs| - 1];
      var last := fs[|fs| - 1];
      assert DistinctColliders(init) by {
        forall i, j | 0 <= i < j < |init| ensures init[i].nectarCollider != init[j].nectarCollider {
          assert init[i] == fs[i] && init[j] == fs[j];
        }
      }
      IndexFindsEveryFlower(init);
      forall k | 0 <= k < |init| ensures init[k].nectarCollider != last.nectarCollider {
        assert init[k] == fs[k];
      }
      IndexKeys(init, last.nectarCollider);
      forall k | 0 <= k < |fs|
        ensures fs[k].nectarCollider in Index(fs) && Index(fs)[fs[k].nectarCollider] == fs[k]
      {
        if k < |init| {
          assert fs[k] == init[k];
        }
      }
    }
  }

  /** A non-distinct prefix makes the whole list non-distinct. */
  lemma DistinctPrefix(a: seq<Flower>, b: seq<Flower>)
    requires DistinctColliders(a + b)
    ensures DistinctColliders(a)
  {
    forall i, j | 0 <= i < j < |a| ensures a[i].nectarCollider != a[j].nectarCollider {
      assert (a + b)[i] == a[i] && (a + b)[j] == a[j];
    }
  }

  /**
   * The walk agrees with the independent collection functions: it completes
   * exactly when the collected flowers have distinct nectar colliders, and
   * then the plants and flowers are appended in visiting order and the
   * dictionary indexes the flower list.
   */
  lemma {:induction false} VisitChildrenCollects(s: AreaState, cs: seq<Node>)
    requires Indexed(s)
    ensures VisitChildren(s, cs).Done? <==> DistinctColliders(s.flowers + FlowersIn(cs))
    ensures VisitChildren(s, cs).Done? ==>
              VisitChildren(s, cs).state ==
              AreaState(s.flowerPlants + PlantsIn(cs), s.flowers + FlowersIn(cs), Index(s.flowers + FlowersIn(cs)))
    decreases cs, 1
  {
    if cs == [] {
      assert s.flowers + FlowersIn(cs) == s.flowers;
      assert s.flowerPlants + PlantsIn(cs) == s.flowerPlants;
    } else {
      var init := cs[..|cs| - 1];
      VisitChildrenCollects(s, init);
      if VisitChildren(s, init).Threw? {
        assert VisitChildren(s, cs) == VisitChildren(s, init);
        assert s.flowers + FlowersIn(cs) == (s.flowers + FlowersIn(init)) + FlowersOf(cs[|cs| - 1]);
        ThrowIsDuplicate(s.flowers + FlowersIn(init), FlowersOf(cs[|cs| - 1]));
      } else {
        var t := VisitChildren(s, init).state;
        assert Indexed(t);
        LastChildCollects(s, cs, t);
      }
    }
  }

  /** The step of VisitChildrenCollects after the earlier children were visited without a throw, reaching `t`. */
  lemma {:induction false} LastChildCollects(s: AreaState, cs: seq<Node>, t: AreaState)
    requires cs != [] && Indexed(t)
    requires VisitChildren(s, cs[..|cs| - 1]) == Done(t)
    requires t.flowerPlants == s.flowerPlants + PlantsIn(cs[..|cs| - 1])
    requires t.flowers == s.flowers + FlowersIn(cs[..|cs| - 1])
    ensures VisitChildren(s, cs).Done? <==> DistinctColliders(s.flowers + FlowersIn(cs))
    ensures VisitChildren(s, cs).Done? ==>
              VisitChildren(s, cs).state ==
              AreaState(s.flowerPlants + PlantsIn(cs), s.flowers + FlowersIn(cs), Index(s.flowers + FlowersIn(cs)))
    decreases cs, 0
  {
    var last := cs[|cs| - 1];
    assert VisitChildren(s, cs) == VisitChild(t, last);
    assert s.flowers + FlowersIn(cs) == t.flowers + FlowersOf(last);
    assert s.flowerPlants + PlantsIn(cs) == t.flowerPlants + PlantsOf(last);
    VisitChildCollects(t, last);
  }

  /** A prefix that already repeats a collider makes the whole list repeat one. */
  lemma ThrowIsDuplicate(a: seq<Flower>, b: seq<Flower>)
    requires !DistinctColliders(a)
    ensures !DistinctColliders(a + b)
  {
    if DistinctColliders(a + b) {
      DistinctPrefix(a, b);
    }
  }

  lemma {:induction false} VisitChildCollects(s: AreaState, c: Node)
    requires Indexed(s)
    ensures VisitChild(s, c).Done? <==> DistinctColliders(s.flowers + FlowersOf(c))
    ensures VisitChild(s, c).Done? ==>
              VisitChild(s, c).state ==
              AreaState(s.flowerPlants + PlantsOf(c), s.flowers + FlowersOf(c), Index(s.flowers + FlowersOf(c)))
    decreases c, 2
  {
    if c.tag == FlowerPlantTag {
      var s' := s.(flowerPlants := s.flowerPlants + [c]);
      VisitChildrenCollects(s', c.children);
      assert s'.flowerPlants + PlantsIn(c.children) == s.flowerPlants + PlantsOf(c);
    } else if c.flower.Some? {
      var f := c.flower.value;
      var fs := s.flowers + [f];
      assert FlowersOf(c) == [f];
      assert PlantsOf(c) == [];
      assert s.flowerPlants + [] == s.flowerPlants;
      assert fs[..|fs| - 1] == s.flowers;
      IndexKeys(s.flowers, f.nectarCollider);
      if f.nectarCollider in s.nectarFlowers {
        var k :| 0 <= k < |s.flowers| && s.flowers[k].nectarCollider == f.nectarCollider;
        assert fs[k] == s.flowers[k] && fs[|fs| - 1] == f;
      } else {
        forall i, j | 0 <= i < j < |fs| ensures fs[i].nectarCollider != fs[j].nectarCollider {
          assert fs[i] == s.flowers[i];
          if j < |s.flowers| {
            assert fs[j] == s.flowers[j];
          }
        }
      }
    } else {
      VisitChildrenCollects(s, c.children);
    }
  }

  /** The walk keeps every dictionary entry pointing at a listed flower with that collider, even when it throws. */
  lemma {:induction false} VisitChildrenKeepsConsistent(s: AreaState, cs: seq<Node>)
    requires Consistent(s)
    ensures Consistent(VisitChildren(s, cs).state)
    ensures s.flowers <= VisitChildren(s, cs).state.flowers
    decreases cs
  {
    if cs != [] {
      var init := cs[..|cs| - 1];
      VisitChildrenKeepsConsistent(s, init);
      match VisitChildren(s, init)
      case Threw(t) =>
      case Done(t) =>
        VisitChildKeepsConsistent(t, cs[|cs| - 1]);
    }
  }

  lemma {:induction false} VisitChildKeepsConsistent(s: AreaState, c: Node)
    requires Consistent(s)
    ensures Consistent(VisitChild(s, c).state)
    ensures s.flowers <= VisitChild(s, c).state.flowers
    decreases c
  {
    if c.tag == FlowerPlantTag {
      VisitChildrenKeepsConsistent(s.(flowerPlants := s.flowerPlants + [c]), c.children);
    } else if c.flower.Some? {
      var f := c.flower.value;
      var fs := s.flowers + [f];
      assert forall g :: g in s.flowers ==> g in fs;
      assert f in fs;
    } else {
      VisitChildrenKeepsConsistent(s, c.children);
    }
  }

  /**
   * From the empty collections Awake creates, Start completes exactly when the
   * flowers found have distinct nectar colliders; then the dictionary holds one
   * entry per flower and looking up a flower's nectar collider finds that flower.
   */
  lemma StartFromAwake(root: Node)
    ensures var w := VisitChildren(AreaState([], [], map[]), root.children);
      && (w.Done? <==> DistinctColliders(FlowersIn(root.children)))
      && (w.Done? ==>
            && w.state.flowerPlants == PlantsIn(root.children)
            && w.state.flowers == FlowersIn(root.children)
            && |w.state.nectarFlowers| == |w.state.flowers|
            && forall k :: 0 <= k < |w.state.flowers| ==>
                 Lookup(w.state.nectarFlowers, w.state.flowers[k].nectarCollider) == Some(w.state.flowers[k]))
  {
    var s := AreaState([], [], map[]);
    assert Indexed(s);
    VisitChildrenCollects(s, root.children);
    assert [] + FlowersIn(root.children) == FlowersIn(root.children);
    assert [] + PlantsIn(root.children) == PlantsIn(root.children);
    if DistinctColliders(FlowersIn(root.children)) {
      IndexFindsEveryFlower(FlowersIn(root.children));
    }
  }

  /** GetFlowerFromNectar's dictionary read; None stands for the KeyNotFoundException of a missing key. */
  function Lookup(d: map<ColliderId, Flower>, collider: ColliderId): Option<Flower>
  {
    if collider in d then Some(d[collider]) else None
  }

  class FlowerArea {
    /** The area's own transform. */
    const root: Node
    var flowerPlants: seq<Node>
    var flowers: seq<Flower>
    var nectarFlowerDictionary: map<ColliderId, Flower>

    function State(): AreaState
      reads this
    {
      AreaState(flowerPlants, flowers, nectarFlowerDictionary)
    }

    ghost predicate Valid()
      reads this
    {
      Consistent(State())
    }

    /** Awake: the three collections start empty. */
    constructor (root: Node)
      ensures this.root == root
      ensures flowerPlants == [] && flowers == [] && nectarFlowerDictionary == map[]
      ensures Valid()
    {
      this.root := root;
      flowerPlants := [];
      nectarFlowerDictionary := map[];
      flowers := [];
    }

    /** Start: walk the area's own children; `threw` reports a duplicate nectar collider. */
    method Start() returns (threw: bool)
      requires Valid()
      modifies this
      ensures Valid()
      ensures threw == VisitChildren(old(State()), root.children).Threw?
      ensures State() == VisitChildren(old(State()), root.children).state
    {
      threw := FindChildFlowers(root);
    }

    /** Depth-first, in child-index order; an exception abandons the rest of the walk. */
    method FindChildFlowers(parent: Node) returns (threw: bool)
      requires Valid()
      modifies this
      ensures Valid()
      ensures threw == VisitChildren(old(State()), parent.children).Threw?
      ensures State() == VisitChildren(old(State()), parent.children).state
      decreases parent
    {
      ghost var start := State();
      VisitChildrenKeepsConsistent(start, parent.children);
      threw := false;
      var i := 0;
      while i < |parent.children|
        invariant 0 <= i <= |parent.children|
        invariant Valid()
        invariant VisitChildren(start, parent.children[..i]) == Done(State())
      {
        var child := parent.children[i];
        assert parent.children[..i + 1][..i] == parent.children[..i];
        if child.tag == FlowerPlantTag {
          flowerPlants := flowerPlants + [child];
          threw := FindChildFlowers(child);
        } else if child.flower.Some? {
          var flower := child.flower.value;
          flowers := flowers + [flower];
          if flower.nectarCollider in nectarFlowerDictionary {
            threw := true;
          } else {
            nectarFlowerDictionary := nectarFlowerDictionary[flower.nectarCollider := flower];
          }
        } else {
          threw := FindChildFlowers(child);
        }
        if threw {
          assert VisitChildren(start, parent.children[..i + 1]) == Threw(State());
          VisitChildrenThrowPropagates(start, parent.children, i + 1);
          return;
        }
        i := i + 1;
      }
      assert parent.children[..i] == parent.children;
    }

    /** Looks up the flower whose nectar collider was hit; None when the collider is not a key. */
    function GetFlowerFromNectar(collider: ColliderId): (r: Option<Flower>)
      requires Valid()
      reads this
      ensures r.Some? <==> collider in nectarFlowerDictionary
      ensures r.Some? ==> r.value.nectarCollider == collider && r.value in flowers
    {
      Lookup(nectarFlowerDictionary, collider)
    }

    /** Refills every listed flower; no other object changes (plant rotations are random and not modelled). */
    method ResetFlowers()
      modifies set f | f in flowers
      ensures forall f :: f in flowers ==>
                f.nectarAmount == FullNectar && f.flowerColliderActive && f.nectarColliderActive && f.colour == FullColour
    {
      var i := 0;
      while i < |flowers|
        invariant 0 <= i <= |flowers|
        invariant forall k :: 0 <= k < i ==>
                    flowers[k].nectarAmount == FullNectar && flowers[k].flowerColliderActive &&
                    flowers[k].nectarColliderActive && flowers[k].colour == FullColour
      {
        flowers[i].ResetFlower();
        i := i + 1;
      }
    }
  }

  /** Once a prefix of the children throws, the walk over all of them throws with the same state. */
  lemma {:induction false} VisitChildrenThrowPropagates(s: AreaState, cs: seq<Node>, n: nat)
    requires n <= |cs| && VisitChildren(s, cs[..n]).Threw?
    ensures VisitChildren(s, cs) == VisitChildren(s, cs[..n])
    decreases |cs| - n
  {
    if n < |cs| {
      assert cs[..n + 1][..n] == cs[..n];
      VisitChildrenThrowPropagates(s, cs, n + 1);
    } else {
      assert cs[..n] == cs;
    }
  }
}
