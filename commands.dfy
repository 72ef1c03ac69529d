/** Deferred world edits: the systems queue commands while they iterate and the
    queue is applied afterwards, in order. */
module Commands {
  import opened Geometry
  import opened Components

  /** Inserting (`Some`/`true`) or removing (`None`/`false`) one component. */
  datatype Edit =
    | SetPosition(position: Option<Vec2>)
    | SetVelocity(velocity: Option<Vec2>)
    | SetAngle(angle: Option<real>)
    | SetAngularVelocity(angularVelocity: Option<real>)
    | SetGrounded(grounded: Option<Grounded>)
    | SetFlying(flying: bool)
    | SetMass(mass: Option<real>)
    | SetParentRelationship(relationship: Option<ParentRelationship>)
    | SetWill(will: Option<Will>)
    | SetSpawnedMidTick(when: Option<real>)
    | SetAlive(alive: bool)
    | SetDead(dead: bool)

  datatype Command =
    | EntityEdit(target: EntityId, edit: Edit)
    | Spawn(bundle: Entity)
    | Despawn(target: EntityId)
    | PushChild(parentId: EntityId, target: EntityId)
    | RemoveParent(target: EntityId)

  /** The entity table together with the id the next spawn receives. */
  datatype Store = Store(entities: map<EntityId, Entity>, nextId: nat)

  function ApplyEdit(e: Entity, ed: Edit): Entity {
    match ed
    case SetPosition(p) => e.(position := p)
    case SetVelocity(v) => e.(velocity := v)
    case SetAngle(a) => e.(angle := a)
    case SetAngularVelocity(w) => e.(angularVelocity := w)
    case SetGrounded(g) => e.(grounded := g)
    case SetFlying(f) => e.(flying := f)
    case SetMass(m) => e.(mass := m)
    case SetParentRelationship(r) => e.(parentRelationship := r)
    case SetWill(w) => e.(will := w)
    case SetSpawnedMidTick(t) => e.(spawnedMidTick := t)
    case SetAlive(b) => e.(alive := b)
    case SetDead(b) => e.(dead := b)
  }

  /** Edits applied left to right: a later insert of the same component wins. */
  function ApplyEdits(e: Entity, eds: seq<Edit>): Entity
    decreases |eds|
  {
    if |eds| == 0 then e else ApplyEdits(ApplyEdit(e, eds[0]), eds[1..])
  }

  /** `s` with every occurrence of `x` removed. */
  function Without(s: seq<EntityId>, x: EntityId): (r: seq<EntityId>)
    ensures x !in r
    ensures forall y :: y in r <==> y in s && y != x
  {
    if |s| == 0 then []
    else if s[0] == x then Without(s[1..], x)
    else [s[0]] + Without(s[1..], x)
  }

  /** Detaches `child` from the children list of its current parent, if that parent exists. */
  function DetachFromParent(m: map<EntityId, Entity>, child: EntityId): map<EntityId, Entity>
    requires child in m
  {
    match m[child].parent
    case Some(q) =>
      if q in m then m[q := m[q].(children := Without(m[q].children, child))] else m
    case None => m
  }

  function Apply(s: Store, c: Command): Store {
    match c
    case EntityEdit(id, ed) =>
      if id in s.entities then Store(s.entities[id := ApplyEdit(s.entities[id], ed)], s.nextId) else s
    case Spawn(e) =>
      Store(s.entities[s.nextId := e], s.nextId + 1)
    case Despawn(id) =>
      Store(s.entities - {id}, s.nextId)
    case PushChild(p, child) =>
      if p == child || p !in s.entities || child !in s.entities then s
      else
        var m1 := DetachFromParent(s.entities, child);
        var m2 := m1[p := m1[p].(children := Without(m1[p].children, child) + [child])];
        Store(m2[child := m2[child].(parent := Some(p))], s.nextId)
    case RemoveParent(child) =>
      if child in s.entities && s.entities[child].parent.Some? then
        var m1 := DetachFromParent(s.entities, child);
        Store(m1[child := m1[child].(parent := None)], s.nextId)
      else s
  }

  /** Flushes a command queue: the commands take effect in the order they were queued. */
  function ApplyCommands(s: Store, cs: seq<Command>): Store
    decreases |cs|
  {
    if |cs| == 0 then s else ApplyCommands(Apply(s, cs[0]), cs[1..])
  }

  /** Every entity's id was handed out before `nextId`. */
  predicate IdsIssued(s: Store) {
    forall id :: id in s.entities ==> id < s.nextId
  }

  /** A spawn under `IdsIssued` adds a new entity and leaves every existing one
      as it was: no spawn reuses a live id. */
  lemma SpawnIsFresh(s: Store, e: Entity)
    requires IdsIssued(s)
    ensures s.nextId !in s.entities
    ensures Apply(s, Spawn(e)).entities.Keys == s.entities.Keys + {s.nextId}
    ensures forall id :: id in s.entities ==> Apply(s, Spawn(e)).entities[id] == s.entities[id]
    ensures Apply(s, Spawn(e)).entities[s.nextId] == e
  {
  }

  /** Every command keeps `IdsIssued`: only a spawn adds an entity, and it takes
      the next id and moves the counter on. */
  lemma ApplyKeepsIssued(s: Store, c: Command)
    requires IdsIssued(s)
    ensures IdsIssued(Apply(s, c))
    ensures Apply(s, c).nextId >= s.nextId
  {
    match c
    case PushChild(p, child) =>
      if p != child && p in s.entities && child in s.entities {
        assert DetachFromParent(s.entities, child).Keys == s.entities.Keys;
      }
    case RemoveParent(child) =>
      if child in s.entities && s.entities[child].parent.Some? {
        assert DetachFromParent(s.entities, child).Keys == s.entities.Keys;
      }
    case _ =>
  }

  /** Flushing a queue keeps `IdsIssued`. */
  lemma {:induction false} ApplyCommandsKeepIssued(s: Store, cs: seq<Command>)
    requires IdsIssued(s)
    ensures IdsIssued(ApplyCommands(s, cs))
    ensures ApplyCommands(s, cs).nextId >= s.nextId
    decreases |cs|
  {
    if |cs| != 0 {
      ApplyKeepsIssued(s, cs[0]);
      ApplyCommandsKeepIssued(Apply(s, cs[0]), cs[1..]);
    }
  }

  /** The commands an entity's edits are queued as. */
  function EditCommands(id: EntityId, eds: seq<Edit>): (cs: seq<Command>)
    ensures |cs| == |eds|
    ensures forall i :: 0 <= i < |cs| ==> cs[i] == EntityEdit(id, eds[i])
  {
    if |eds| == 0 then [] else [EntityEdit(id, eds[0])] + EditCommands(id, eds[1..])
  }

  /** Commands that only edit components of entities in `ids`. */
  predicate EditsOnly(cs: seq<Command>, ids: set<EntityId>) {
    forall i :: 0 <= i < |cs| ==> cs[i].EntityEdit? && cs[i].target in ids
  }

  /** A spawn command for each bundle, in order. */
  function SpawnCommands(bundles: seq<Entity>): (cs: seq<Command>)
    ensures |cs| == |bundles|
    ensures forall i :: 0 <= i < |cs| ==> cs[i] == Spawn(bundles[i])
  {
    if |bundles| == 0 then [] else [Spawn(bundles[0])] + SpawnCommands(bundles[1..])
  }

  /** Flushing two queues one after the other is flushing their concatenation. */
  lemma {:induction false} ApplyAppend(s: Store, a: seq<Command>, b: seq<Command>)
    ensures ApplyCommands(s, a + b) == ApplyCommands(ApplyCommands(s, a), b)
    decreases |a|
  {
    if |a| == 0 {
      assert a + b == b;
    } else {
      assert (a + b)[0] == a[0];
      assert (a + b)[1..] == a[1..] + b;
      ApplyAppend(Apply(s, a[0]), a[1..], b);
    }
  }

  /** Queued edits of one entity act on that entity alone, as `ApplyEdits` does. */
  lemma {:induction false} ApplyEditCommands(s: Store, id: EntityId, eds: seq<Edit>)
    ensures ApplyCommands(s, EditCommands(id, eds))
         == if id in s.entities then Store(s.entities[id := ApplyEdits(s.entities[id], eds)], s.nextId) else s
    decreases |eds|
  {
    if |eds| != 0 {
      var cs := EditCommands(id, eds);
      assert cs[1..] == EditCommands(id, eds[1..]);
      ApplyEditCommands(Apply(s, cs[0]), id, eds[1..]);
      if id in s.entities {
        assert s.entities[id := ApplyEdit(s.entities[id], eds[0])][id := ApplyEdits(ApplyEdit(s.entities[id], eds[0]), eds[1..])]
            == s.entities[id := ApplyEdits(s.entities[id], eds)];
      }
    }
  }

  /** Component edits of other entities do not interact with an update of `id`,
      and never change the set of entities or the next id. */
  lemma {:induction false} EditsFrame(m: map<EntityId, Entity>, n: nat, cs: seq<Command>, id: EntityId, x: Entity)
    requires forall i :: 0 <= i < |cs| ==> cs[i].EntityEdit? && cs[i].target != id
    ensures ApplyCommands(Store(m[id := x], n), cs)
         == Store(ApplyCommands(Store(m, n), cs).entities[id := x], n)
    ensures ApplyCommands(Store(m, n), cs).entities.Keys == m.Keys
    ensures ApplyCommands(Store(m, n), cs).nextId == n
    decreases |cs|
  {
    if |cs| != 0 {
      var t := cs[0].target;
      var ed := cs[0].edit;
      var m' := Apply(Store(m, n), cs[0]).entities;
      assert Apply(Store(m[id := x], n), cs[0]) == Store(m'[id := x], n) by {
        if t in m {
          assert m[id := x][t := ApplyEdit(m[id := x][t], ed)] == m[t := ApplyEdit(m[t], ed)][id := x];
        }
      }
      EditsFrame(m', n, cs[1..], id, x);
    }
  }

  /** Applying two lists of edits one after the other is applying their concatenation. */
  lemma {:induction false} ApplyEditsAppend(e: Entity, a: seq<Edit>, b: seq<Edit>)
    ensures ApplyEdits(e, a + b) == ApplyEdits(ApplyEdits(e, a), b)
    decreases |a|
  {
    if |a| == 0 {
      assert a + b == b;
    } else {
      assert (a + b)[0] == a[0];
      assert (a + b)[1..] == a[1..] + b;
      ApplyEditsAppend(ApplyEdit(e, a[0]), a[1..], b);
    }
  }

  lemma ApplyEditsCons(e: Entity, ed: Edit, rest: seq<Edit>)
    ensures ApplyEdits(e, [ed] + rest) == ApplyEdits(ApplyEdit(e, ed), rest)
  {
    assert ([ed] + rest)[0] == ed;
    assert ([ed] + rest)[1..] == rest;
  }

  lemma ApplyOneEdit(e: Entity, ed: Edit)
    ensures ApplyEdits(e, [ed]) == ApplyEdit(e, ed)
  {
    assert [ed][1..] == [];
  }

  /** Two edits in a row. */
  lemma ApplyTwoEdits(e: Entity, first: Edit, second: Edit)
    ensures ApplyEdits(e, [first, second]) == ApplyEdit(ApplyEdit(e, first), second)
  {
    calc {
      ApplyEdits(e, [first, second]);
      ApplyEdits(ApplyEdit(e, first), [first, second][1..]);
      { assert [first, second][1..] == [second]; }
      ApplyEdits(ApplyEdit(e, first), [second]);
      ApplyEdits(ApplyEdit(ApplyEdit(e, first), second), [second][1..]);
      { assert [second][1..] == []; }
      ApplyEdit(ApplyEdit(e, first), second);
    }
  }

  /** The two edits that swap Flying and Grounded. */
  lemma SwapFlyingGrounded(e: Entity, flying: bool, grounded: Option<Grounded>)
    ensures ApplyEdits(e, [SetFlying(flying), SetGrounded(grounded)]) == e.(flying := flying, grounded := grounded)
  {
    ApplyTwoEdits(e, SetFlying(flying), SetGrounded(grounded));
  }

  /** The same two edits in the other order. */
  lemma SwapGroundedFlying(e: Entity, grounded: Option<Grounded>, flying: bool)
    ensures ApplyEdits(e, [SetGrounded(grounded), SetFlying(flying)]) == e.(flying := flying, grounded := grounded)
  {
    ApplyTwoEdits(e, SetGrounded(grounded), SetFlying(flying));
  }
}
