/** The mutable entity table the systems run over. */
module Worlds {
  import opened Geometry
  import opened Components
  import opened Commands

  /** The result of running `step` on every entity of `m`. */
  function MapEntities(m: map<EntityId, Entity>, step: (EntityId, Entity) -> Entity): (r: map<EntityId, Entity>)
    ensures r.Keys == m.Keys
    ensures forall id :: id in m ==> r[id] == step(id, m[id])
  {
    map id | id in m :: step(id, m[id])
  }

  /** `m` with the edits `edits(id, old entity)` applied to each entity `id`. */
  function EditEntities(m: map<EntityId, Entity>, old_: map<EntityId, Entity>, edits: (EntityId, Entity) -> seq<Edit>): (r: map<EntityId, Entity>)
    requires m.Keys == old_.Keys
    ensures r.Keys == m.Keys
    ensures forall id :: id in m ==> r[id] == ApplyEdits(m[id], edits(id, old_[id]))
  {
    map id | id in m :: ApplyEdits(m[id], edits(id, old_[id]))
  }

  class World {
    var entities: map<EntityId, Entity>
    var nextId: nat

    /** Every existing id was handed out before `nextId`, so a spawn never
        reuses one (`Commands.SpawnIsFresh`). */
    ghost predicate Valid()
      reads this
    {
      IdsIssued(Store(entities, nextId))
    }

    constructor ()
      ensures entities == map[] && nextId == 0
      ensures Valid()
    {
      entities := map[];
      nextId := 0;
    }

    /** Applies a queue of commands to the table. */
    method Flush(cs: seq<Command>)
      requires Valid()
      modifies this
      ensures Valid() && nextId >= old(nextId)
      ensures Store(entities, nextId) == ApplyCommands(Store(old(entities), old(nextId)), cs)
    {
      var s := ApplyCommands(Store(entities, nextId), cs);
      ApplyCommandsKeepIssued(Store(entities, nextId), cs);
      entities := s.entities;
      nextId := s.nextId;
    }

    /** The shape of a system that visits every entity once, in an unspecified
        order, and updates it in place with `step`, queueing nothing. */
    method Update(step: (EntityId, Entity) -> Entity)
      modifies this
      ensures Valid() <==> old(Valid())
      ensures nextId == old(nextId)
      ensures entities == MapEntities(old(entities), step)
    {
      ghost var start := entities;
      var todo := entities.Keys;
      while todo != {}
        invariant todo <= start.Keys && entities.Keys == start.Keys
        invariant nextId == old(nextId)
        invariant forall id :: id in start ==> entities[id] == if id in todo then start[id] else step(id, start[id])
        decreases todo
      {
        var id :| id in todo;
        entities := entities[id := step(id, entities[id])];
        todo := todo - {id};
      }
    }

    /** The shape of a system that visits every entity once, in an unspecified
        order, updating it in place with `step` and queueing `edits` computed
        from what it read. The new table is independent of the visiting order,
        and so is the table once the queued commands are flushed. */
    method RunLocal(step: (EntityId, Entity) -> Entity, edits: (EntityId, Entity) -> seq<Edit>)
      returns (cs: seq<Command>)
      modifies this
      ensures Valid() <==> old(Valid())
      ensures nextId == old(nextId)
      ensures entities == MapEntities(old(entities), step)
      ensures EditsOnly(cs, entities.Keys)
      ensures ApplyCommands(Store(entities, nextId), cs)
           == Store(EditEntities(entities, old(entities), edits), nextId)
    {
      ghost var start := entities;
      var todo := entities.Keys;
      ghost var done: set<EntityId> := {};
      cs := [];
      assert entities == Stepped(start, done, step);
      assert ApplyCommands(Store(entities, nextId), cs) == Store(Edited(start, done, step, edits), nextId);
      while todo != {}
        invariant todo + done == start.Keys && todo !! done
        invariant nextId == old(nextId)
        invariant entities == Stepped(start, done, step)
        invariant EditsOnly(cs, done)
        invariant ApplyCommands(Store(entities, nextId), cs) == Store(Edited(start, done, step, edits), nextId)
        decreases todo
      {
        var id :| id in todo;
        var e := entities[id];
        var more := EditCommands(id, edits(id, e));
        RunLocalStep(start, done, id, cs, nextId, step, edits);
        entities := entities[id := step(id, e)];
        cs := cs + more;
        todo := todo - {id};
        done := done + {id};
      }
      assert Edited(start, done, step, edits) == EditEntities(entities, start, edits);
    }
  }

  /** The table part way through `RunLocal`: the entities in `done` have been stepped. */
  ghost function Stepped(start: map<EntityId, Entity>, done: set<EntityId>, step: (EntityId, Entity) -> Entity): map<EntityId, Entity> {
    map id | id in start :: if id in done then step(id, start[id]) else start[id]
  }

  /** The flushed table part way through `RunLocal`. */
  ghost function Edited(start: map<EntityId, Entity>, done: set<EntityId>, step: (EntityId, Entity) -> Entity,
                        edits: (EntityId, Entity) -> seq<Edit>): map<EntityId, Entity> {
    map id | id in start :: if id in done then ApplyEdits(step(id, start[id]), edits(id, start[id])) else start[id]
  }

  /** One iteration of `RunLocal` keeps its loop invariant. */
  lemma RunLocalStep(start: map<EntityId, Entity>, done: set<EntityId>, id: EntityId, cs: seq<Command>, n: nat,
                     step: (EntityId, Entity) -> Entity, edits: (EntityId, Entity) -> seq<Edit>)
    requires id in start && id !in done
    requires EditsOnly(cs, done)
    requires ApplyCommands(Store(Stepped(start, done, step), n), cs) == Store(Edited(start, done, step, edits), n)
    ensures Stepped(start, done + {id}, step) == Stepped(start, done, step)[id := step(id, start[id])]
    ensures EditsOnly(cs + EditCommands(id, edits(id, start[id])), done + {id})
    ensures ApplyCommands(Store(Stepped(start, done + {id}, step), n), cs + EditCommands(id, edits(id, start[id])))
         == Store(Edited(start, done + {id}, step, edits), n)
  {
    var p := Stepped(start, done, step);
    var x := step(id, start[id]);
    var eds := edits(id, start[id]);
    var more := EditCommands(id, eds);
    SteppedGrows(start, done, id, step);
    EditsFrame(p, n, cs, id, x);
    var flushed: map<EntityId, Entity> := Edited(start, done, step, edits)[id := x];
    ApplyAppend(Store(p[id := x], n), cs, more);
    ApplyEditCommands(Store(flushed, n), id, eds);
    EditedGrows(start, done, id, step, edits);
    EditsOnlyAppend(cs, done, id, eds);
  }

  lemma SteppedGrows(start: map<EntityId, Entity>, done: set<EntityId>, id: EntityId, step: (EntityId, Entity) -> Entity)
    requires id in start
    ensures Stepped(start, done + {id}, step) == Stepped(start, done, step)[id := step(id, start[id])]
  {
  }

  lemma EditedGrows(start: map<EntityId, Entity>, done: set<EntityId>, id: EntityId,
                    step: (EntityId, Entity) -> Entity, edits: (EntityId, Entity) -> seq<Edit>)
    requires id in start
    ensures Edited(start, done + {id}, step, edits)
         == Edited(start, done, step, edits)[id := step(id, start[id])][id := ApplyEdits(step(id, start[id]), edits(id, start[id]))]
  {
  }

  lemma EditsOnlyAppend(cs: seq<Command>, done: set<EntityId>, id: EntityId, eds: seq<Edit>)
    requires EditsOnly(cs, done)
    ensures EditsOnly(cs + EditCommands(id, eds), done + {id})
  {
    var more := EditCommands(id, eds);
    var all := cs + more;
    forall i | 0 <= i < |all|
      ensures all[i].EntityEdit? && all[i].target in done + {id}
    {
      if i >= |cs| {
        assert all[i] == more[i - |cs|];
      } else {
        assert all[i] == cs[i];
      }
    }
  }

  /** The shape of a read-only system that visits every entity once, in an
      unspecified order, and queues the `edits` computed from it. Flushed, the
      queue applies each entity's edits to that entity alone. */
  method QueueEdits(entities: map<EntityId, Entity>, nextId: nat, edits: (EntityId, Entity) -> seq<Edit>)
    returns (cs: seq<Command>)
    ensures EditsOnly(cs, entities.Keys)
    ensures ApplyCommands(Store(entities, nextId), cs) == Store(EditEntities(entities, entities, edits), nextId)
  {
    var identity := (id: EntityId, e: Entity) => e;
    var todo := entities.Keys;
    ghost var done: set<EntityId> := {};
    cs := [];
    SteppedIdentity(entities, done);
    assert ApplyCommands(Store(entities, nextId), cs) == Store(Edited(entities, done, identity, edits), nextId);
    while todo != {}
      invariant todo + done == entities.Keys && todo !! done
      invariant EditsOnly(cs, done)
      invariant ApplyCommands(Store(entities, nextId), cs) == Store(Edited(entities, done, identity, edits), nextId)
      decreases todo
    {
      var id :| id in todo;
      SteppedIdentity(entities, done);
      RunLocalStep(entities, done, id, cs, nextId, identity, edits);
      SteppedIdentity(entities, done + {id});
      cs := cs + EditCommands(id, edits(id, entities[id]));
      todo := todo - {id};
      done := done + {id};
    }
    assert Edited(entities, done, identity, edits) == EditEntities(entities, entities, edits);
  }

  lemma SteppedIdentity(start: map<EntityId, Entity>, done: set<EntityId>)
    ensures Stepped(start, done, (id: EntityId, e: Entity) => e) == start
  {
  }

  /** Every entity of the table: the order in which a query visits them, each once. */
  predicate Enumerates(order: seq<EntityId>, ids: set<EntityId>) {
    && (forall i, j :: 0 <= i < j < |order| ==> order[i] != order[j])
    && (forall id :: id in order ==> id in ids)
    && (forall id :: id in ids ==> id in order)
  }

  /** A read-only check over every entity: true exactly when `p` holds of all of them. */
  method CheckAll(entities: map<EntityId, Entity>, p: Entity -> bool) returns (ok: bool)
    ensures ok <==> forall id :: id in entities ==> p(entities[id])
  {
    var todo := entities.Keys;
    ok := true;
    while todo != {}
      invariant todo <= entities.Keys
      invariant ok <==> forall id :: id in entities && id !in todo ==> p(entities[id])
      decreases todo
    {
      var id :| id in todo;
      if !p(entities[id]) {
        ok := false;
      }
      todo := todo - {id};
    }
  }
}
