/** The older hit handling: hits only push the entity, by force over mass. */
module Health {
  import opened Geometry
  import opened Components
  import opened Worlds

  /** The sum of the hits' forces, in list order. */
  function ForceSum(hits: seq<Hit>): Vec2
    decreases |hits|
  {
    if |hits| == 0 then Zero else Add(ForceSum(hits[..|hits| - 1]), hits[|hits| - 1].force)
  }

  /** A hit's push on a body of mass `mass`. */
  function Push(hit: Hit, mass: real): Vec2
    requires mass != 0.0
  {
    Scale(hit.force, 1.0 / mass)
  }

  /** The body visited by the system has hits and a velocity; it is pushed only with a mass. */
  predicate Pushable(e: Entity) {
    e.hits.Some? && e.velocity.Some? && e.mass.Some?
  }

  /** A mass the pushes can be divided by, where there is something to push. */
  predicate MassUsable(e: Entity) {
    Pushable(e) && |e.hits.value| > 0 ==> e.mass.value != 0.0
  }

  /** The velocity after the hits: the old one plus the total force over the mass. */
  function HitStep(e: Entity): Entity
    requires MassUsable(e)
  {
    if Pushable(e) && |e.hits.value| > 0 then
      e.(velocity := Some(Add(e.velocity.value, Scale(ForceSum(e.hits.value), 1.0 / e.mass.value))))
    else e
  }

  /** `process_hits`' inner loop: every hit adds its force over the mass to
      the velocity, and nothing happens without a mass. */
  method AbsorbForces(velocity: Vec2, hits: seq<Hit>, mass: Option<real>) returns (v: Vec2)
    requires mass.Some? && |hits| > 0 ==> mass.value != 0.0
    ensures mass.Some? && |hits| > 0 ==> v == Add(velocity, Scale(ForceSum(hits), 1.0 / mass.value))
    ensures mass.None? || |hits| == 0 ==> v == velocity
  {
    v := velocity;
    for i := 0 to |hits|
      invariant mass.Some? && i > 0 ==> v == Add(velocity, Scale(ForceSum(hits[..i]), 1.0 / mass.value))
      invariant mass.None? || i == 0 ==> v == velocity
    {
      if mass.Some? {
        assert hits[..i + 1][..i] == hits[..i];
        if i == 0 {
          assert ForceSum(hits[..1]) == Add(Zero, hits[0].force);
          assert Add(Zero, hits[0].force) == hits[0].force;
        } else {
          AddScaled(velocity, ForceSum(hits[..i]), hits[i].force, 1.0 / mass.value);
        }
        v := Add(v, Push(hits[i], mass.value));
      }
    }
    assert hits[..|hits|] == hits;
  }

  /** `process_hits`: every body with hits and a velocity absorbs its hits'
      forces in place; its list of hits is read, not cleared. */
  method ProcessHits(w: World)
    modifies w
    requires forall id :: id in w.entities ==> MassUsable(w.entities[id])
    ensures w.nextId == old(w.nextId)
    ensures w.entities.Keys == old(w.entities).Keys
    ensures forall id :: id in old(w.entities) ==> w.entities[id] == HitStep(old(w.entities)[id])
  {
    ghost var start := w.entities;
    var todo := w.entities.Keys;
    while todo != {}
      invariant todo <= start.Keys && w.entities.Keys == start.Keys
      invariant w.nextId == old(w.nextId)
      invariant forall id :: id in start ==> w.entities[id] == if id in todo then start[id] else HitStep(start[id])
      decreases todo
    {
      var id :| id in todo;
      var r := VisitHits(w.entities[id]);
      w.entities := w.entities[id := r];
      todo := todo - {id};
    }
  }

  /** The system's visit of one entity. */
  method VisitHits(e: Entity) returns (r: Entity)
    requires MassUsable(e)
    ensures r == HitStep(e)
  {
    r := e;
    if e.hits.Some? && e.velocity.Some? {
      var v := AbsorbForces(e.velocity.value, e.hits.value, e.mass);
      r := e.(velocity := Some(v));
      if !Pushable(e) || |e.hits.value| == 0 {
        assert r == e;
      }
    }
  }

  /** Only the velocity changes: the hits stay, and a body without a mass,
      velocity or hits is unchanged. */
  lemma HitStepFrame(e: Entity)
    requires MassUsable(e)
    ensures
      var r := HitStep(e);
      && r == e.(velocity := r.velocity)
      && r.hits == e.hits
      && (e.mass.None? ==> r == e)
  {
  }

  /** Removing the hit at `i` takes its force out of the sum. */
  lemma {:induction false} ForceSumRemove(hits: seq<Hit>, i: nat)
    requires i < |hits|
    ensures ForceSum(hits) == Add(ForceSum(hits[..i] + hits[i + 1..]), hits[i].force)
    decreases |hits|
  {
    var k := |hits| - 1;
    if i == k {
      assert hits[..i] + hits[i + 1..] == hits[..k];
    } else {
      var rest := hits[..i] + hits[i + 1..];
      ForceSumRemove(hits[..k], i);
      assert hits[..k][..i] + hits[..k][i + 1..] == rest[..|rest| - 1];
      assert rest[|rest| - 1] == hits[k];
      var a := ForceSum(rest[..|rest| - 1]);
      assert ForceSum(hits) == Add(Add(a, hits[i].force), hits[k].force);
      assert ForceSum(rest) == Add(a, hits[k].force);
    }
  }

  /** The sum of the forces does not depend on the order of the hits. */
  lemma {:induction false} ForceSumPermutation(a: seq<Hit>, b: seq<Hit>)
    requires multiset(a) == multiset(b)
    ensures ForceSum(a) == ForceSum(b)
    decreases |a|
  {
    if |a| > 0 {
      var k := |a| - 1;
      var x := a[k];
      assert x in multiset(b);
      var j :| 0 <= j < |b| && b[j] == x;
      var b' := b[..j] + b[j + 1..];
      assert b == b[..j] + [b[j]] + b[j + 1..];
      assert a == a[..k] + [x];
      assert multiset(a) == multiset(a[..k]) + multiset{x};
      assert multiset(b) == multiset(b[..j]) + multiset{x} + multiset(b[j + 1..]);
      assert multiset(b') == multiset(b[..j]) + multiset(b[j + 1..]);
      assert multiset(a[..k]) == multiset(a) - multiset{x};
      assert multiset(b') == multiset(b) - multiset{x};
      ForceSumPermutation(a[..k], b');
      ForceSumRemove(b, j);
    } else {
      assert |b| == 0;
    }
  }

  /** The velocity after the hits does not depend on the order they arrived in. */
  lemma HitOrderIrrelevant(e: Entity, reordered: seq<Hit>)
    requires MassUsable(e) && e.hits.Some? && multiset(reordered) == multiset(e.hits.value)
    ensures MassUsable(e.(hits := Some(reordered)))
    ensures HitStep(e.(hits := Some(reordered))).velocity == HitStep(e).velocity
  {
    assert |reordered| == |multiset(reordered)| == |e.hits.value|;
    ForceSumPermutation(reordered, e.hits.value);
  }
}
