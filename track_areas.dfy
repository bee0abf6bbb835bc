/**
 * The race track area (Assets/Scripts/TrackArea.cs): collects checkpoint
 * objects below its transform and re-enables their box colliders on reset.
 */
module TrackAreas {
  import opened Wrappers
  import opened SceneTree

  const CheckPointTag: string := "CheckPoint"

  /** The checkpoints FindCheckPoints appends for a parent with children `cs`: preorder, descending only into checkpoints. */
  function CheckPointsIn(cs: seq<Node>): seq<Node>
    decreases cs
  {
    if cs == [] then [] else CheckPointsIn(cs[..|cs| - 1]) + CheckPointsOf(cs[|cs| - 1])
  }

  function CheckPointsOf(c: Node): seq<Node>
    decreases c
  {
    if c.tag == CheckPointTag then [c] + CheckPointsIn(c.children) else []
  }

  /** `x` is reached from `cs` through a chain of checkpoint-tagged nodes, `x` itself included. */
  ghost predicate ReachedThroughCheckPoints(cs: seq<Node>, x: Node)
    decreases cs
  {
    exists k :: 0 <= k < |cs| && cs[k].tag == CheckPointTag &&
      (cs[k] == x || ReachedThroughCheckPoints(cs[k].children, x))
  }

  /**
   * A node is collected exactly when it is reached through checkpoints only:
   * nothing below a non-checkpoint node is ever collected.
   */
  lemma {:induction false} CollectedIffReached(cs: seq<Node>, x: Node)
    ensures x in CheckPointsIn(cs) <==> ReachedThroughCheckPoints(cs, x)
    decreases cs
  {
    if cs != [] {
      var init, last := cs[..|cs| - 1], cs[|cs| - 1];
      assert CheckPointsIn(cs) == CheckPointsIn(init) + CheckPointsOf(last);
      assert x in CheckPointsIn(cs) <==> x in CheckPointsIn(init) || x in CheckPointsOf(last);
      CollectedIffReached(init, x);
      if last.tag == CheckPointTag {
        CollectedIffReached(last.children, x);
      }
      if ReachedThroughCheckPoints(cs, x) {
        var k :| 0 <= k < |cs| && cs[k].tag == CheckPointTag &&
          (cs[k] == x || ReachedThroughCheckPoints(cs[k].children, x));
        if k < |init| {
          assert init[k] == cs[k];
        }
      }
      if ReachedThroughCheckPoints(init, x) {
        var k :| 0 <= k < |init| && init[k].tag == CheckPointTag &&
          (init[k] == x || ReachedThroughCheckPoints(init[k].children, x));
        assert cs[k] == init[k];
      }
      if last.tag == CheckPointTag && (last == x || ReachedThroughCheckPoints(last.children, x)) {
        assert cs[|cs| - 1] == last;
      }
    }
  }

  /** Every collected node carries the checkpoint tag. */
  lemma {:induction false} CollectedAreCheckPoints(cs: seq<Node>)
    ensures forall x :: x in CheckPointsIn(cs) ==> x.tag == CheckPointTag
    decreases cs
  {
    if cs != [] {
      var last := cs[|cs| - 1];
      CollectedAreCheckPoints(cs[..|cs| - 1]);
      if last.tag == CheckPointTag {
        CollectedAreCheckPoints(last.children);
      }
    }
  }

  /**
   * Every collected node is one of the searched children or lies below one of
   * them, so none is larger than all of them together.
   */
  lemma {:induction false} CollectedAreInside(cs: seq<Node>)
    ensures forall x :: x in CheckPointsIn(cs) ==> InSubtrees(cs, x) && Size(x) <= SizeAll(cs)
    decreases cs
  {
    if cs != [] {
      var init, last := cs[..|cs| - 1], cs[|cs| - 1];
      CollectedAreInside(init);
      if last.tag == CheckPointTag {
        CollectedAreInside(last.children);
      }
      assert CheckPointsIn(cs) == CheckPointsIn(init) + CheckPointsOf(last);
      forall x | x in CheckPointsIn(cs) ensures InSubtrees(cs, x) && Size(x) <= SizeAll(cs) {
        if x in CheckPointsIn(init) {
          var k :| 0 <= k < |init| && (init[k] == x || InSubtrees(init[k].children, x));
          assert cs[k] == init[k];
        } else {
          assert cs[|cs| - 1] == last;
        }
      }
    }
  }

  /** The node the walk starts from is never collected itself. */
  lemma RootNeverCollected(root: Node)
    ensures root !in CheckPointsIn(root.children)
  {
    CollectedAreInside(root.children);
  }

  /** Collection over consecutive children is the concatenation: children are handled in index order. */
  lemma {:induction false} CollectionFollowsChildOrder(a: seq<Node>, b: seq<Node>)
    ensures CheckPointsIn(a + b) == CheckPointsIn(a) + CheckPointsIn(b)
    decreases |b|
  {
    if b == [] {
      assert a + b == a;
      assert CheckPointsIn(a) + CheckPointsIn(b) == CheckPointsIn(a);
    } else {
      var init, last := b[..|b| - 1], b[|b| - 1];
      assert (a + b)[..|a + b| - 1] == a + init;
      assert (a + b)[|a + b| - 1] == last;
      assert CheckPointsIn(a + b) == CheckPointsIn(a + init) + CheckPointsOf(last);
      CollectionFollowsChildOrder(a, init);
      assert CheckPointsIn(b) == CheckPointsIn(init) + CheckPointsOf(last);
    }
  }

  /** The box colliders of a list of checkpoints. */
  function CollidersOf(cps: seq<Node>): set<BoxCollider>
  {
    set n | n in cps && n.boxCollider.Some? :: n.boxCollider.value
  }

  class TrackArea {
    /** The area's own transform. */
    const root: Node
    var checkpoints: seq<Node>

    /** Awake: the checkpoint list starts empty. */
    constructor (root: Node)
      ensures this.root == root && checkpoints == []
    {
      this.root := root;
      checkpoints := [];
    }

    /** Start: collect the checkpoints below the area's own transform. */
    method Start()
      modifies this
      ensures checkpoints == old(checkpoints) + CheckPointsIn(root.children)
    {
      FindCheckPoints(root);
    }

    method FindCheckPoints(parent: Node)
      modifies this
      ensures checkpoints == old(checkpoints) + CheckPointsIn(parent.children)
      decreases parent
    {
      var i := 0;
      while i < |parent.children|
        invariant 0 <= i <= |parent.children|
        invariant checkpoints == old(checkpoints) + CheckPointsIn(parent.children[..i])
      {
        var child := parent.children[i];
        assert parent.children[..i + 1][..i] == parent.children[..i];
        if child.tag == CheckPointTag {
          checkpoints := checkpoints + [child];
          FindCheckPoints(child);
        }
        i := i + 1;
      }
      assert parent.children[..i] == parent.children;
    }

    /** Re-enable the box collider of every checkpoint that has one; nothing else changes. */
    method AreaReset()
      modifies CollidersOf(checkpoints)
      ensures forall b :: b in CollidersOf(checkpoints) ==> b.enabled
      ensures forall b :: b in CollidersOf(checkpoints) && old(b.enabled) ==> unchanged(b)
    {
      var i := 0;
      while i < |checkpoints|
        invariant 0 <= i <= |checkpoints|
        invariant forall b :: b in CollidersOf(checkpoints[..i]) ==> b.enabled
        invariant forall b :: b in CollidersOf(checkpoints) && old(b.enabled) ==> unchanged(b)
      {
        var collider := checkpoints[i].boxCollider;
        if collider.Some? {
          collider.value.enabled := true;
        }
        assert CollidersOf(checkpoints[..i + 1]) == CollidersOf(checkpoints[..i]) + CollidersOf([checkpoints[i]]);
        i := i + 1;
      }
      assert checkpoints[..i] == checkpoints;
    }
  }
}
