/** Holding: holders drop what they hold and pick up what is in reach, through
    parent links; and the debug check of the holding hierarchy. */
module Hierarchy {
  import opened Geometry
  import opened Components
  import opened Commands
  import opened Worlds

  // ------------------------------------------------------------ consistency

  /** An entity is attached to a parent exactly when it has a parent link. */
  predicate HasSpatialState(e: Entity) {
    e.position.Some? || e.velocity.Some? || e.angle.Some? || e.angularVelocity.Some? || e.grounded.Some? || e.flying
  }

  /** The hierarchy clauses for one entity, given the table it is in:
      a child has a relationship and no spatial or ground state; a held child
      is holdable and its parent is a holder; a relationship comes with a
      parent; and no entity has both a parent and children. */
  predicate EntityConsistent(entities: map<EntityId, Entity>, e: Entity) {
    && (e.parent.Some? ==>
          && e.parentRelationship.Some?
          && !HasSpatialState(e)
          && (e.parentRelationship.value.HeldBy? ==>
                e.holdable && e.parent.value in entities && entities[e.parent.value].holder.Some?))
    && (e.parentRelationship.Some? ==> e.parent.Some?)
    && !(e.parent.Some? && |e.children| > 0)
  }

  /** `check_consistent_hierarchy_state`'s invariant. */
  predicate HierarchyConsistent(entities: map<EntityId, Entity>) {
    forall id :: id in entities ==> EntityConsistent(entities, entities[id])
  }

  /** `check_consistent_hierarchy_state`: true exactly when the invariant holds. */
  method CheckConsistentHierarchy(entities: map<EntityId, Entity>) returns (ok: bool)
    ensures ok <==> HierarchyConsistent(entities)
  {
    ok := CheckAll(entities, (e: Entity) => EntityConsistent(entities, e));
  }

  // ---------------------------------------------------------------- dropping

  /** The speed at or below which a dropped child lands on the ground: its own
      reground threshold unless it levitates, else the default. */
  function DropThreshold(c: Entity): real {
    if c.regroundThreshold.Some? && !c.levitates then c.regroundThreshold.value else DEFAULT_REGROUND_THRESHOLD
  }

  /** Where a child held `heldDistance` in front of its parent is let go. */
  function DropPosition(m: Maths, p: Entity, heldDistance: real): Vec2
    requires p.position.Some?
  {
    Add(p.position.value, Rotate(m.fromAngle(p.angle.GetOr(0.0)), Vec2(heldDistance, 0.0)))
  }

  /** The landing edit: grounded or flying, by speed. */
  function Landing(m: Maths, c: Entity, v: Vec2): Edit {
    if m.Length(v) <= DropThreshold(c) then SetGrounded(Some(Grounded(c.gait.Some?, None))) else SetFlying(true)
  }

  /** The edits a dropped held child receives from its parent `p`, one
      component at a time, each only when the parent has it. */
  function PositionDrop(m: Maths, p: Entity, heldDistance: real): seq<Edit> {
    if p.position.Some? then [SetPosition(Some(DropPosition(m, p, heldDistance)))] else []
  }

  function VelocityDrop(m: Maths, p: Entity, c: Entity): seq<Edit> {
    if p.velocity.Some? then [SetVelocity(Some(p.velocity.value)), Landing(m, c, p.velocity.value)] else []
  }

  function AngleDrop(p: Entity, heldAngle: real): seq<Edit> {
    if p.angle.Some? then [SetAngle(Some(p.angle.value + heldAngle))] else []
  }

  function AngularVelocityDrop(p: Entity): seq<Edit> {
    if p.angularVelocity.Some? then [SetAngularVelocity(Some(p.angularVelocity.value))] else []
  }

  /** The component edits a dropped held child receives from its parent `p`. */
  function DropEdits(m: Maths, p: Entity, c: Entity, heldDistance: real, heldAngle: real): seq<Edit> {
    [SetParentRelationship(None)] + PositionDrop(m, p, heldDistance) + VelocityDrop(m, p, c)
      + AngleDrop(p, heldAngle) + AngularVelocityDrop(p)
  }

  /** The commands for one child of a dropping holder: a held child is
      detached and placed; a child in any other relationship is left alone. */
  function ChildDropCommands(m: Maths, entities: map<EntityId, Entity>, holder: EntityId, child: EntityId): seq<Command>
    requires holder in entities && child in entities && entities[child].parentRelationship.Some?
  {
    match entities[child].parentRelationship.value
    case HeldBy(d, a) =>
      [RemoveParent(child)] + EditCommands(child, DropEdits(m, entities[holder], entities[child], d, a))
    case OtherRelationship => []
  }

  /** The holders `dropping` visits: with a will, children and `Holder`. */
  predicate IsDroppingHolder(e: Entity) {
    e.holder.Some? && e.will.Some? && e.will.value.drop
  }

  /** The children of a dropping holder must carry a parent link, or the
      source's `unwrap` panics; the hierarchy invariant guarantees it for
      children whose parent link points back at the holder. */
  predicate DropReady(entities: map<EntityId, Entity>, holder: EntityId) {
    holder in entities
    && forall c :: c in entities[holder].children ==>
         c in entities && entities[c].parentRelationship.Some? && entities[c].parent.Some?
  }

  function HolderDropCommands(m: Maths, entities: map<EntityId, Entity>, holder: EntityId, children: seq<EntityId>): seq<Command>
    requires holder in entities
    requires forall c :: c in children ==> c in entities && entities[c].parentRelationship.Some?
    decreases |children|
  {
    if |children| == 0 then []
    else
      var k := |children| - 1;
      HolderDropCommands(m, entities, holder, children[..k]) + ChildDropCommands(m, entities, holder, children[k])
  }

  function DroppingCommands(m: Maths, entities: map<EntityId, Entity>, order: seq<EntityId>): seq<Command>
    requires forall h :: h in order ==> h in entities && (IsDroppingHolder(entities[h]) ==> DropReady(entities, h))
    decreases |order|
  {
    if |order| == 0 then []
    else
      var k := |order| - 1;
      var h := order[k];
      assert h in order;
      assert IsDroppingHolder(entities[h]) ==> DropReady(entities, h);
      DroppingCommands(m, entities, order[..k])
        + (if IsDroppingHolder(entities[h]) then HolderDropCommands(m, entities, h, entities[h].children) else [])
  }

  /** `dropping`: visits the holders in query order `order`; each whose will
      is to drop lets go of everything it holds. */
  method Dropping(m: Maths, entities: map<EntityId, Entity>, order: seq<EntityId>) returns (cs: seq<Command>)
    requires forall h :: h in order ==> h in entities && (IsDroppingHolder(entities[h]) ==> DropReady(entities, h))
    ensures cs == DroppingCommands(m, entities, order)
  {
    cs := [];
    for i := 0 to |order|
      invariant cs == DroppingCommands(m, entities, order[..i])
    {
      assert order[..i + 1][..i] == order[..i];
      var h := order[i];
      var e := entities[h];
      if !IsDroppingHolder(e) {
        continue;
      }
      var children := e.children;
      var more := [];
      for j := 0 to |children|
        invariant more == HolderDropCommands(m, entities, h, children[..j])
      {
        assert children[..j + 1][..j] == children[..j];
        more := more + ChildDropCommands(m, entities, h, children[j]);
      }
      assert children[..|children|] == children;
      cs := cs + more;
    }
    assert order[..|order|] == order;
  }

  /** The components dropping and picking up change: the parent
      relationship and the spatial and ground state. */
  datatype Placement = Placement(
    relationship: Option<ParentRelationship>,
    position: Option<Vec2>,
    velocity: Option<Vec2>,
    angle: Option<real>,
    angularVelocity: Option<real>,
    grounded: Option<Grounded>,
    flying: bool)

  function PlacementOf(e: Entity): Placement {
    Placement(e.parentRelationship, e.position, e.velocity, e.angle, e.angularVelocity, e.grounded, e.flying)
  }

  /** `e` with its placement components replaced by `pl`. */
  function Placed(e: Entity, pl: Placement): Entity {
    e.(parentRelationship := pl.relationship, position := pl.position, velocity := pl.velocity, angle := pl.angle,
       angularVelocity := pl.angularVelocity, grounded := pl.grounded, flying := pl.flying)
  }

  predicate IsPlacementEdit(ed: Edit) {
    ed.SetParentRelationship? || ed.SetPosition? || ed.SetVelocity? || ed.SetAngle? || ed.SetAngularVelocity?
    || ed.SetGrounded? || ed.SetFlying?
  }

  /** A placement edit, acting on the placement alone. */
  function Place(pl: Placement, ed: Edit): Placement {
    match ed
    case SetParentRelationship(r) => pl.(relationship := r)
    case SetPosition(x) => pl.(position := x)
    case SetVelocity(v) => pl.(velocity := v)
    case SetAngle(a) => pl.(angle := a)
    case SetAngularVelocity(w) => pl.(angularVelocity := w)
    case SetGrounded(g) => pl.(grounded := g)
    case SetFlying(f) => pl.(flying := f)
    case _ => pl
  }

  function PlaceAll(pl: Placement, eds: seq<Edit>): Placement
    decreases |eds|
  {
    if |eds| == 0 then pl else PlaceAll(Place(pl, eds[0]), eds[1..])
  }

  lemma PlacedOf(e: Entity)
    ensures Placed(e, PlacementOf(e)) == e
  {
  }

  /** A placement edit applied to an entity acts on its placement alone. */
  lemma PlacedEdit(e: Entity, pl: Placement, ed: Edit)
    requires IsPlacementEdit(ed)
    ensures ApplyEdit(Placed(e, pl), ed) == Placed(e, Place(pl, ed))
  {
  }

  lemma {:induction false} PlacedEdits(e: Entity, pl: Placement, eds: seq<Edit>)
    requires forall i :: 0 <= i < |eds| ==> IsPlacementEdit(eds[i])
    ensures ApplyEdits(Placed(e, pl), eds) == Placed(e, PlaceAll(pl, eds))
    decreases |eds|
  {
    if |eds| > 0 {
      PlacedEdit(e, pl, eds[0]);
      PlacedEdits(e, Place(pl, eds[0]), eds[1..]);
    }
  }

  lemma PlaceCons(pl: Placement, ed: Edit, rest: seq<Edit>)
    ensures PlaceAll(pl, [ed] + rest) == PlaceAll(Place(pl, ed), rest)
  {
    assert ([ed] + rest)[0] == ed;
    assert ([ed] + rest)[1..] == rest;
  }

  lemma PlaceOne(pl: Placement, ed: Edit)
    ensures PlaceAll(pl, [ed]) == Place(pl, ed)
  {
    PlaceCons(pl, ed, []);
  }

  lemma {:induction false} PlaceAllAppend(pl: Placement, a: seq<Edit>, b: seq<Edit>)
    ensures PlaceAll(pl, a + b) == PlaceAll(PlaceAll(pl, a), b)
    decreases |a|
  {
    if |a| == 0 {
      assert a + b == b;
    } else {
      assert (a + b)[1..] == a[1..] + b;
      PlaceAllAppend(Place(pl, a[0]), a[1..], b);
    }
  }

  /** Where and how a dropped child ends up. */
  function DropPlacement(m: Maths, p: Entity, c: Entity, d: real, a: real): Placement {
    var landed := p.velocity.Some? && m.Length(p.velocity.value) <= DropThreshold(c);
    Placement(
      None,
      if p.position.Some? then Some(DropPosition(m, p, d)) else c.position,
      if p.velocity.Some? then p.velocity else c.velocity,
      if p.angle.Some? then Some(p.angle.value + a) else c.angle,
      if p.angularVelocity.Some? then p.angularVelocity else c.angularVelocity,
      if landed then Some(Grounded(c.gait.Some?, None)) else c.grounded,
      if p.velocity.Some? && !landed then true else c.flying)
  }

  lemma DropEditsApply(m: Maths, p: Entity, c: Entity, d: real, a: real)
    ensures ApplyEdits(c, DropEdits(m, p, c, d, a)) == Placed(c, DropPlacement(m, p, c, d, a))
  {
    var eds := DropEdits(m, p, c, d, a);
    assert forall i :: 0 <= i < |eds| ==> IsPlacementEdit(eds[i]);
    PlacedOf(c);
    PlacedEdits(c, PlacementOf(c), eds);
    DropPlaceAll(m, p, c, d, a);
  }

  lemma DropPlaceAll(m: Maths, p: Entity, c: Entity, d: real, a: real)
    ensures PlaceAll(PlacementOf(c), DropEdits(m, p, c, d, a)) == DropPlacement(m, p, c, d, a)
  {
    var h := [SetParentRelationship(None)];
    var e1 := PositionDrop(m, p, d);
    var e2 := VelocityDrop(m, p, c);
    var e3 := AngleDrop(p, a);
    var e4 := AngularVelocityDrop(p);
    var pl0 := PlacementOf(c);
    PlaceAllAppend(pl0, h + e1 + e2 + e3, e4);
    PlaceAllAppend(pl0, h + e1 + e2, e3);
    PlaceAllAppend(pl0, h + e1, e2);
    PlaceAllAppend(pl0, h, e1);
    var pl1 := PlaceAll(pl0, h);
    PlaceOne(pl0, SetParentRelationship(None));
    var pl2 := PlaceAll(pl1, e1);
    if p.position.Some? { PlaceOne(pl1, SetPosition(Some(DropPosition(m, p, d)))); }
    var pl3 := PlaceAll(pl2, e2);
    if p.velocity.Some? {
      PlaceCons(pl2, SetVelocity(p.velocity), [Landing(m, c, p.velocity.value)]);
      PlaceOne(pl2.(velocity := p.velocity), Landing(m, c, p.velocity.value));
    }
    var pl4 := PlaceAll(pl3, e3);
    if p.angle.Some? { PlaceOne(pl3, SetAngle(Some(p.angle.value + a))); }
    if p.angularVelocity.Some? { PlaceOne(pl4, SetAngularVelocity(p.angularVelocity)); }
  }

  /** A dropped held child loses its relationship; it takes the parent's
      position in front of the parent, its velocity, its angle plus the held
      angle and its angular velocity, as far as the parent has them; it lands
      (standing iff it has a gait, with no timer) when the parent is slower
      than its threshold and flies otherwise; no other component changes. */
  lemma DroppedChild(m: Maths, p: Entity, c: Entity, d: real, a: real)
    ensures
      var x := ApplyEdits(c, DropEdits(m, p, c, d, a));
      && x == Placed(c, PlacementOf(x))
      && x.parentRelationship.None?
      && x.position == (if p.position.Some? then Some(DropPosition(m, p, d)) else c.position)
      && x.velocity == (if p.velocity.Some? then p.velocity else c.velocity)
      && (p.velocity.Some? && m.Length(p.velocity.value) <= DropThreshold(c) ==>
            x.grounded == Some(Grounded(c.gait.Some?, None)) && x.flying == c.flying)
      && (p.velocity.Some? && m.Length(p.velocity.value) > DropThreshold(c) ==>
            x.flying && x.grounded == c.grounded)
      && (p.velocity.None? ==> x.grounded == c.grounded && x.flying == c.flying)
      && x.angle == (if p.angle.Some? then Some(p.angle.value + a) else c.angle)
      && x.angularVelocity == (if p.angularVelocity.Some? then p.angularVelocity else c.angularVelocity)
      && (!c.flying && c.grounded.None? ==> GroundConsistent(x))
  {
    DropEditsApply(m, p, c, d, a);
  }

  /** Flushing the drop of a held child: the child is detached (from the
      holder's children too, when its parent link points at the holder) and
      placed as `DroppedChild` says. */
  lemma DropChildEffect(m: Maths, entities: map<EntityId, Entity>, n: nat, holder: EntityId, child: EntityId)
    requires holder in entities && child in entities && holder != child
    requires entities[child].parentRelationship.Some? && entities[child].parentRelationship.value.HeldBy?
    requires entities[child].parent == Some(holder)
    ensures
      var rel := entities[child].parentRelationship.value;
      var after := ApplyCommands(Store(entities, n), ChildDropCommands(m, entities, holder, child));
      && after.nextId == n && after.entities.Keys == entities.Keys
      && after.entities[child]
         == ApplyEdits(entities[child].(parent := None),
                       DropEdits(m, entities[holder], entities[child], rel.heldDistance, rel.heldAngle))
      && after.entities[holder] == entities[holder].(children := Without(entities[holder].children, child))
      && forall x :: x in entities && x != holder && x != child ==> after.entities[x] == entities[x]
  {
    var rel := entities[child].parentRelationship.value;
    var eds := DropEdits(m, entities[holder], entities[child], rel.heldDistance, rel.heldAngle);
    var s1 := Apply(Store(entities, n), RemoveParent(child));
    assert ApplyCommands(Store(entities, n), [RemoveParent(child)] + EditCommands(child, eds))
        == ApplyCommands(s1, EditCommands(child, eds));
    ApplyEditCommands(s1, child, eds);
  }

  /** Dropping a held child keeps the hierarchy invariant. */
  lemma DropKeepsConsistency(m: Maths, entities: map<EntityId, Entity>, n: nat, holder: EntityId, child: EntityId)
    requires HierarchyConsistent(entities)
    requires holder in entities && child in entities && holder != child
    requires entities[child].parentRelationship.Some? && entities[child].parentRelationship.value.HeldBy?
    requires entities[child].parent == Some(holder)
    ensures HierarchyConsistent(ApplyCommands(Store(entities, n), ChildDropCommands(m, entities, holder, child)).entities)
  {
    DropChildEffect(m, entities, n, holder, child);
    var rel := entities[child].parentRelationship.value;
    DroppedChild(m, entities[holder], entities[child].(parent := None), rel.heldDistance, rel.heldAngle);
    var after := ApplyCommands(Store(entities, n), ChildDropCommands(m, entities, holder, child)).entities;
    forall x | x in after
      ensures EntityConsistent(after, after[x])
    {
      assert EntityConsistent(entities, entities[x]);
    }
  }

  // -------------------------------------------------------------- picking up

  /** The holders `picking_up` visits: with a will, a position and `Holder`. */
  predicate IsPicker(e: Entity) {
    e.will.Some? && e.position.Some? && e.holder.Some?
  }

  /** The candidates: holdable, unparented, with a position. */
  predicate IsCandidate(e: Entity) {
    e.holdable && e.parent.None? && e.position.Some?
  }

  /** Candidate `c` is within the pick-up range of holder `h`. */
  predicate InReach(m: Maths, h: Entity, c: Entity)
    requires IsPicker(h) && IsCandidate(c)
  {
    m.Distance(h.position.value, c.position.value) <= h.holder.value.pickUpRange
  }

  /** The first candidate, in the candidate query's order, within reach of `h`. */
  function Reached(m: Maths, entities: map<EntityId, Entity>, h: Entity, candidates: seq<EntityId>): (r: Option<EntityId>)
    requires IsPicker(h)
    ensures r.Some? ==> r.value in candidates && r.value in entities && IsCandidate(entities[r.value])
                        && InReach(m, h, entities[r.value])
    decreases |candidates|
  {
    if |candidates| == 0 then None
    else
      var c := candidates[0];
      if c in entities && IsCandidate(entities[c]) && InReach(m, h, entities[c]) then Some(c)
      else Reached(m, entities, h, candidates[1..])
  }

  /** No candidate before the one reached is within reach, and none at all
      when none is reached. */
  lemma {:induction false} ReachedIsFirst(m: Maths, entities: map<EntityId, Entity>, h: Entity, candidates: seq<EntityId>)
    requires IsPicker(h)
    ensures
      var r := Reached(m, entities, h, candidates);
      && (r.None? ==> forall i :: 0 <= i < |candidates| && candidates[i] in entities && IsCandidate(entities[candidates[i]])
                                  ==> !InReach(m, h, entities[candidates[i]]))
      && (r.Some? ==>
            exists k :: 0 <= k < |candidates| && candidates[k] == r.value
              && forall i :: 0 <= i < k && candidates[i] in entities && IsCandidate(entities[candidates[i]])
                             ==> !InReach(m, h, entities[candidates[i]]))
    decreases |candidates|
  {
    if |candidates| > 0 {
      var c := candidates[0];
      if !(c in entities && IsCandidate(entities[c]) && InReach(m, h, entities[c])) {
        var rest := candidates[1..];
        ReachedIsFirst(m, entities, h, rest);
        assert forall i :: 1 <= i < |candidates| ==> candidates[i] == rest[i - 1];
        var r := Reached(m, entities, h, rest);
        if r.Some? {
          var k :| 0 <= k < |rest| && rest[k] == r.value
                   && forall i :: 0 <= i < k && rest[i] in entities && IsCandidate(entities[rest[i]])
                                  ==> !InReach(m, h, entities[rest[i]]);
          assert candidates[k + 1] == r.value;
        }
      } else {
        assert candidates[0] == Reached(m, entities, h, candidates).value;
      }
    }
  }

  /** The component edits a picked-up child receives: held at the holder's
      radius, straight ahead, with no spatial or ground state of its own. */
  function PickUpEdits(heldDistance: real): seq<Edit> {
    [SetParentRelationship(Some(HeldBy(heldDistance, 0.0))), SetPosition(None), SetVelocity(None), SetAngle(None),
     SetAngularVelocity(None), SetGrounded(None), SetFlying(false)]
  }

  function PickUpCommands(holder: EntityId, child: EntityId, heldDistance: real): seq<Command> {
    [PushChild(holder, child)] + EditCommands(child, PickUpEdits(heldDistance))
  }

  /** The held distance: the holder's collider radius, or 0. */
  function HeldDistance(h: Entity): real {
    if h.collider.Some? then h.collider.value.radius else 0.0
  }

  /** One holder's turn: only with the will to pick up and nothing held, the
      first candidate in reach is picked up. */
  function HolderPickUp(m: Maths, entities: map<EntityId, Entity>, h: EntityId, candidates: seq<EntityId>): seq<Command>
    requires h in entities && IsPicker(entities[h])
  {
    var e := entities[h];
    if !e.will.value.pickUp || |e.children| > 0 then []
    else
      match Reached(m, entities, e, candidates)
      case Some(c) => PickUpCommands(h, c, HeldDistance(e))
      case None => []
  }

  function PickingUpCommands(m: Maths, entities: map<EntityId, Entity>, order: seq<EntityId>, candidates: seq<EntityId>): seq<Command>
    requires forall h :: h in order ==> h in entities
    decreases |order|
  {
    if |order| == 0 then []
    else
      var k := |order| - 1;
      var h := order[k];
      PickingUpCommands(m, entities, order[..k], candidates)
        + if IsPicker(entities[h]) then HolderPickUp(m, entities, h, candidates) else []
  }

  /** The candidate search of one holder: the first in reach, then stop. */
  method FindCandidate(m: Maths, entities: map<EntityId, Entity>, h: Entity, candidates: seq<EntityId>)
    returns (found: Option<EntityId>)
    requires IsPicker(h)
    ensures found == Reached(m, entities, h, candidates)
  {
    found := None;
    for i := 0 to |candidates|
      invariant Reached(m, entities, h, candidates) == Reached(m, entities, h, candidates[i..])
    {
      assert candidates[i..][1..] == candidates[i + 1..];
      var c := candidates[i];
      if c in entities && IsCandidate(entities[c]) && InReach(m, h, entities[c]) {
        found := Some(c);
        break;
      }
    }
  }

  /** `picking_up`: visits the holders in query order `order` and the
      candidates in query order `candidates`. The commands are deferred, so
      every holder sees the same candidates. */
  method PickingUp(m: Maths, entities: map<EntityId, Entity>, order: seq<EntityId>, candidates: seq<EntityId>)
    returns (cs: seq<Command>)
    requires forall h :: h in order ==> h in entities
    ensures cs == PickingUpCommands(m, entities, order, candidates)
  {
    cs := [];
    for i := 0 to |order|
      invariant cs == PickingUpCommands(m, entities, order[..i], candidates)
    {
      assert order[..i + 1][..i] == order[..i];
      var h := order[i];
      var e := entities[h];
      if !IsPicker(e) || !e.will.value.pickUp {
        continue;
      }
      if |e.children| > 0 {
        continue;
      }
      var found := FindCandidate(m, entities, e, candidates);
      if found.Some? {
        cs := cs + PickUpCommands(h, found.value, HeldDistance(e));
      }
    }
    assert order[..|order|] == order;
  }

  /** Detaching keeps the entity set. */
  lemma DetachKeys(entities: map<EntityId, Entity>, child: EntityId)
    requires child in entities
    ensures DetachFromParent(entities, child).Keys == entities.Keys
  {
  }

  /** Detaching changes only the old parent, and only its children, which shrink. */
  lemma DetachAt(entities: map<EntityId, Entity>, child: EntityId, x: EntityId)
    requires child in entities && x in entities
    ensures x in DetachFromParent(entities, child)
    ensures DetachFromParent(entities, child)[x]
         == if Some(x) == entities[child].parent then entities[x].(children := Without(entities[x].children, child))
            else entities[x]
    ensures |DetachFromParent(entities, child)[x].children| <= |entities[x].children|
  {
    WithoutShrinks(entities[x].children, child);
  }

  /** The entity table `PushChild` leaves. */
  function Attached(entities: map<EntityId, Entity>, holder: EntityId, child: EntityId): map<EntityId, Entity>
    requires holder in entities && child in entities
  {
    var m1 := DetachFromParent(entities, child);
    var m2 := m1[holder := m1[holder].(children := Without(m1[holder].children, child) + [child])];
    m2[child := m2[child].(parent := Some(holder))]
  }

  lemma PushChildStore(entities: map<EntityId, Entity>, n: nat, holder: EntityId, child: EntityId)
    requires holder in entities && child in entities && holder != child
    ensures Apply(Store(entities, n), PushChild(holder, child)) == Store(Attached(entities, holder, child), n)
  {
    assert Apply(Store(entities, n), PushChild(holder, child)).entities == Attached(entities, holder, child);
  }

  /** Flushing the `PushChild` of a pick-up. */
  lemma PushChildEffect(entities: map<EntityId, Entity>, n: nat, holder: EntityId, child: EntityId)
    requires holder in entities && child in entities && holder != child
    ensures
      var m1 := DetachFromParent(entities, child);
      var s1 := Apply(Store(entities, n), PushChild(holder, child));
      && s1.nextId == n && s1.entities.Keys == entities.Keys
      && s1.entities[child] == m1[child].(parent := Some(holder))
      && s1.entities[holder] == m1[holder].(children := Without(m1[holder].children, child) + [child])
      && forall x :: x in entities && x != holder && x != child ==> s1.entities[x] == m1[x]
  {
    PushChildStore(entities, n, holder, child);
    AttachedFacts(entities, holder, child);
  }

  lemma AttachedFacts(entities: map<EntityId, Entity>, holder: EntityId, child: EntityId)
    requires holder in entities && child in entities && holder != child
    ensures
      var m1 := DetachFromParent(entities, child);
      var m3 := Attached(entities, holder, child);
      && m3.Keys == entities.Keys
      && m3[child] == m1[child].(parent := Some(holder))
      && m3[holder] == m1[holder].(children := Without(m1[holder].children, child) + [child])
      && forall x :: x in entities && x != holder && x != child ==> m3[x] == m1[x]
  {
    AttachedKeys(entities, holder, child);
    AttachedChild(entities, holder, child);
  }

  lemma AttachedKeys(entities: map<EntityId, Entity>, holder: EntityId, child: EntityId)
    requires holder in entities && child in entities && holder != child
    ensures Attached(entities, holder, child).Keys == entities.Keys
  {
    DetachKeys(entities, child);
  }

  lemma AttachedChild(entities: map<EntityId, Entity>, holder: EntityId, child: EntityId)
    requires holder in entities && child in entities && holder != child
    ensures
      var m1 := DetachFromParent(entities, child);
      child in m1 && Attached(entities, holder, child)[child] == m1[child].(parent := Some(holder))
  {
    DetachAt(entities, child, child);
    var m1 := DetachFromParent(entities, child);
    var m2 := m1[holder := m1[holder].(children := Without(m1[holder].children, child) + [child])];
    assert m2[child] == m1[child];
  }

  /** Where a picked-up child is: held at distance `d`, with no spatial or ground state. */
  function HeldPlacement(d: real): Placement {
    Placement(Some(HeldBy(d, 0.0)), None, None, None, None, None, false)
  }

  /** Flushing a pick-up: the child is attached to the holder (and detached
      from any earlier parent), held at the given distance, and stripped of
      its spatial and ground state; nothing else changes. */
  lemma PickUpEffect(entities: map<EntityId, Entity>, n: nat, holder: EntityId, child: EntityId, d: real)
    requires holder in entities && child in entities && holder != child
    ensures
      var m1 := DetachFromParent(entities, child);
      var after := ApplyCommands(Store(entities, n), PickUpCommands(holder, child, d));
      && after.nextId == n && after.entities.Keys == entities.Keys
      && after.entities[child] == Placed(m1[child].(parent := Some(holder)), HeldPlacement(d))
      && after.entities[holder] == m1[holder].(children := Without(m1[holder].children, child) + [child])
      && forall x :: x in entities && x != holder && x != child ==> after.entities[x] == m1[x]
  {
    var eds := PickUpEdits(d);
    var m3 := Attached(entities, holder, child);
    PushChildStore(entities, n, holder, child);
    AttachedFacts(entities, holder, child);
    var cs := PickUpCommands(holder, child, d);
    assert cs[0] == PushChild(holder, child);
    assert cs[1..] == EditCommands(child, eds);
    ApplyEditCommands(Store(m3, n), child, eds);
    PickUpEditsApply(m3[child], d);
  }

  /** The pick-up edits, applied. */
  lemma PickUpEditsApply(c: Entity, d: real)
    ensures ApplyEdits(c, PickUpEdits(d)) == Placed(c, HeldPlacement(d))
  {
    var eds := PickUpEdits(d);
    assert forall i :: 0 <= i < |eds| ==> IsPlacementEdit(eds[i]);
    PlacedOf(c);
    PlacedEdits(c, PlacementOf(c), eds);
    HeldPlaceAll(PlacementOf(c), d);
  }

  lemma HeldPlaceAll(pl: Placement, d: real)
    ensures PlaceAll(pl, PickUpEdits(d)) == HeldPlacement(d)
  {
    var eds := PickUpEdits(d);
    var r := Some(HeldBy(d, 0.0));
    var t6 := [SetFlying(false)];
    var t5 := [SetGrounded(None)] + t6;
    var t4 := [SetAngularVelocity(None)] + t5;
    var t3 := [SetAngle(None)] + t4;
    var t2 := [SetVelocity(None)] + t3;
    var t1 := [SetPosition(None)] + t2;
    assert eds == [SetParentRelationship(r)] + t1;
    PlaceCons(pl, SetParentRelationship(r), t1);
    var p1 := pl.(relationship := r);
    PlaceCons(p1, SetPosition(None), t2);
    var p2 := p1.(position := None);
    PlaceCons(p2, SetVelocity(None), t3);
    var p3 := p2.(velocity := None);
    PlaceCons(p3, SetAngle(None), t4);
    var p4 := p3.(angle := None);
    PlaceCons(p4, SetAngularVelocity(None), t5);
    var p5 := p4.(angularVelocity := None);
    PlaceCons(p5, SetGrounded(None), t6);
    PlaceOne(p5.(grounded := None), SetFlying(false));
  }

  /** A pick-up keeps the hierarchy invariant, provided the holder has no
      parent of its own and the child holds nothing: the candidate query rules
      out neither. The child may already be held, by a holder that picked it
      up earlier in the same tick. */
  lemma PickUpKeepsConsistency(entities: map<EntityId, Entity>, n: nat, holder: EntityId, child: EntityId, d: real)
    requires HierarchyConsistent(entities)
    requires holder in entities && child in entities && holder != child
    requires entities[holder].holder.Some? && entities[holder].parent.None?
    requires entities[child].holdable && entities[child].children == []
    ensures HierarchyConsistent(ApplyCommands(Store(entities, n), PickUpCommands(holder, child, d)).entities)
  {
    var after := ApplyCommands(Store(entities, n), PickUpCommands(holder, child, d)).entities;
    forall x | x in after
      ensures EntityConsistent(after, after[x])
    {
      PickUpKeepsEntity(entities, n, holder, child, d, x);
    }
  }

  lemma PickUpKeepsEntity(entities: map<EntityId, Entity>, n: nat, holder: EntityId, child: EntityId, d: real,
                          x: EntityId)
    requires HierarchyConsistent(entities)
    requires holder in entities && child in entities && holder != child
    requires entities[holder].holder.Some? && entities[holder].parent.None?
    requires entities[child].holdable && entities[child].children == []
    requires x in ApplyCommands(Store(entities, n), PickUpCommands(holder, child, d)).entities
    ensures
      var after := ApplyCommands(Store(entities, n), PickUpCommands(holder, child, d)).entities;
      EntityConsistent(after, after[x])
  {
    PickUpEffect(entities, n, holder, child, d);
    if x == child {
      PickUpKeepsChild(entities, n, holder, child, d);
    } else if x == holder {
      PickUpKeepsHolder(entities, n, holder, child, d);
    } else {
      PickUpKeepsOther(entities, n, holder, child, d, x);
    }
  }

  lemma PickUpKeepsChild(entities: map<EntityId, Entity>, n: nat, holder: EntityId, child: EntityId, d: real)
    requires HierarchyConsistent(entities)
    requires holder in entities && child in entities && holder != child
    requires entities[holder].holder.Some? && entities[holder].parent.None?
    requires entities[child].holdable && entities[child].children == []
    ensures
      var after := ApplyCommands(Store(entities, n), PickUpCommands(holder, child, d)).entities;
      child in after && EntityConsistent(after, after[child])
  {
    PickUpEffect(entities, n, holder, child, d);
    var after := ApplyCommands(Store(entities, n), PickUpCommands(holder, child, d)).entities;
    DetachAt(entities, child, child);
    DetachAt(entities, child, holder);
    var m1 := DetachFromParent(entities, child);
    var c := after[child];
    assert c == Placed(m1[child].(parent := Some(holder)), HeldPlacement(d));
    assert c.holdable && c.children == [];
    assert after[holder].holder.Some?;
  }

  lemma PickUpKeepsHolder(entities: map<EntityId, Entity>, n: nat, holder: EntityId, child: EntityId, d: real)
    requires HierarchyConsistent(entities)
    requires holder in entities && child in entities && holder != child
    requires entities[holder].holder.Some? && entities[holder].parent.None?
    requires entities[child].holdable && entities[child].children == []
    ensures
      var after := ApplyCommands(Store(entities, n), PickUpCommands(holder, child, d)).entities;
      holder in after && EntityConsistent(after, after[holder])
  {
    PickUpEffect(entities, n, holder, child, d);
    DetachAt(entities, child, holder);
    assert EntityConsistent(entities, entities[holder]);
  }

  lemma PickUpKeepsOther(entities: map<EntityId, Entity>, n: nat, holder: EntityId, child: EntityId, d: real,
                         x: EntityId)
    requires HierarchyConsistent(entities)
    requires holder in entities && child in entities && holder != child
    requires entities[holder].holder.Some? && entities[holder].parent.None?
    requires entities[child].holdable && entities[child].children == []
    requires x in entities && x != holder && x != child
    ensures
      var after := ApplyCommands(Store(entities, n), PickUpCommands(holder, child, d)).entities;
      x in after && EntityConsistent(after, after[x])
  {
    var after := ApplyCommands(Store(entities, n), PickUpCommands(holder, child, d)).entities;
    PickUpAt(entities, n, holder, child, d, x);
    DetachAt(entities, child, x);
    var e := entities[x];
    assert EntityConsistent(entities, e);
    if e.parent.Some? && e.parent.value in entities {
      PickUpHolderField(entities, n, holder, child, d, e.parent.value);
    }
  }

  /** A pick-up leaves every other entity as detaching left it. */
  lemma PickUpAt(entities: map<EntityId, Entity>, n: nat, holder: EntityId, child: EntityId, d: real, x: EntityId)
    requires holder in entities && child in entities && holder != child
    requires x in entities && x != holder && x != child
    ensures
      var after := ApplyCommands(Store(entities, n), PickUpCommands(holder, child, d)).entities;
      x in after && after[x] == DetachFromParent(entities, child)[x]
  {
    PickUpEffect(entities, n, holder, child, d);
  }

  /** A pick-up never changes which entities are holders. */
  lemma PickUpHolderField(entities: map<EntityId, Entity>, n: nat, holder: EntityId, child: EntityId, d: real,
                          y: EntityId)
    requires holder in entities && child in entities && holder != child
    requires y in entities
    ensures
      var after := ApplyCommands(Store(entities, n), PickUpCommands(holder, child, d)).entities;
      y in after && after[y].holder == entities[y].holder
  {
    PickUpEffect(entities, n, holder, child, d);
    DetachAt(entities, child, y);
  }

  lemma {:induction false} WithoutShrinks(s: seq<EntityId>, x: EntityId)
    ensures |Without(s, x)| <= |s|
    decreases |s|
  {
    if |s| > 0 {
      WithoutShrinks(s[1..], x);
    }
  }

  /** Two holders picking up the same entity in one tick: once flushed, the
      later holder holds it, the earlier one does not list it among its
      children, and the hierarchy invariant still holds. */
  lemma SamePickUpTwice(entities: map<EntityId, Entity>, n: nat, first: EntityId, second: EntityId, child: EntityId,
                        d1: real, d2: real)
    requires HierarchyConsistent(entities)
    requires first in entities && second in entities && child in entities
    requires first != second && first != child && second != child
    requires entities[first].holder.Some? && entities[first].parent.None?
    requires entities[second].holder.Some? && entities[second].parent.None?
    requires entities[child].holdable && entities[child].children == [] && entities[child].parent.None?
    ensures
      var after := ApplyCommands(Store(entities, n), PickUpCommands(first, child, d1) + PickUpCommands(second, child, d2));
      && HierarchyConsistent(after.entities)
      && child in after.entities && first in after.entities && second in after.entities
      && after.entities[child].parent == Some(second)
      && after.entities[child].parentRelationship == Some(HeldBy(d2, 0.0))
      && child in after.entities[second].children
      && child !in after.entities[first].children
  {
    ApplyAppend(Store(entities, n), PickUpCommands(first, child, d1), PickUpCommands(second, child, d2));
    var s1 := ApplyCommands(Store(entities, n), PickUpCommands(first, child, d1));
    PickUpEffect(entities, n, first, child, d1);
    PickUpKeepsConsistency(entities, n, first, child, d1);
    assert DetachFromParent(entities, child) == entities;
    PickUpEffect(s1.entities, s1.nextId, second, child, d2);
    PickUpKeepsConsistency(s1.entities, s1.nextId, second, child, d2);
  }
}
