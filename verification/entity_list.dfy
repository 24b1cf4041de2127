/**
 * `CEntityList` of entity/CEntityList.cpp: a vector of entity slots that reuses
 * the lowest free slot, and the live-entity count. Entities are compared by
 * identity (`Entity.id`); `nextId` hands out the identities of new objects.
 */
module EntityList {
  import opened Wrappers
  import opened BaseEntity

  const SIZE_T_MAX: nat := 0xFFFF_FFFF_FFFF_FFFF

  datatype EntList = EntList(entities: seq<Option<Entity>>, count: nat, nextId: nat)

  /** The number of occupied slots. */
  function Occupied(slots: seq<Option<Entity>>): (n: nat)
    ensures n <= |slots|
  {
    if |slots| == 0 then 0 else Occupied(slots[..|slots| - 1]) + (if slots[|slots| - 1].Some? then 1 else 0)
  }

  lemma {:induction false} OccupiedUpdate(slots: seq<Option<Entity>>, i: nat, x: Option<Entity>)
    requires i < |slots|
    ensures Occupied(slots[i := x]) ==
      Occupied(slots) - (if slots[i].Some? then 1 else 0) + (if x.Some? then 1 else 0)
    decreases |slots|
  {
    var last := |slots| - 1;
    if i < last {
      OccupiedUpdate(slots[..last], i, x);
      assert slots[i := x][..last] == slots[..last][i := x];
    } else {
      assert slots[i := x][..last] == slots[..last];
    }
  }

  lemma OccupiedAppend(slots: seq<Option<Entity>>, x: Option<Entity>)
    ensures Occupied(slots + [x]) == Occupied(slots) + (if x.Some? then 1 else 0)
  {
    assert (slots + [x])[..|slots|] == slots;
  }

  /**
   * Every stored entity sits at its own index, no entity is stored twice, all
   * identities were handed out, and the count is the number of occupied slots.
   */
  predicate Valid(l: EntList)
  {
    && (forall i :: 0 <= i < |l.entities| && l.entities[i].Some? ==>
          l.entities[i].value.index == i && l.entities[i].value.id < l.nextId)
    && (forall i, j :: 0 <= i < j < |l.entities| && l.entities[i].Some? && l.entities[j].Some? ==>
          l.entities[i].value.id != l.entities[j].value.id)
    && l.count == Occupied(l.entities)
  }

  /** The lowest empty slot at or after `i`, or the vector's size. */
  function FirstEmpty(slots: seq<Option<Entity>>, i: nat): (j: nat)
    requires i <= |slots|
    ensures i <= j <= |slots|
    ensures j < |slots| ==> slots[j].None?
    ensures forall k :: i <= k < j ==> slots[k].Some?
    decreases |slots| - i
  {
    if i == |slots| || slots[i].None? then i else FirstEmpty(slots, i + 1)
  }

  /**
   * `Create(className)`: the new entity goes into the lowest empty slot, or a
   * slot appended at the end; its index is that slot and the count rises by 1.
   */
  function Create(l: EntList, className: string): (r: (EntList, Entity))
    ensures var (l1, e) := r;
      && e == NewEntity(l.nextId, className, e.index)
      && (forall k :: 0 <= k < e.index && k < |l.entities| ==> l.entities[k].Some?)
      && (e.index < |l.entities| ==> l.entities[e.index].None? && l1.entities == l.entities[e.index := Some(e)])
      && (e.index >= |l.entities| ==> e.index == |l.entities| && l1.entities == l.entities + [Some(e)])
      && l1.count == l.count + 1
      && l1.nextId == l.nextId + 1
    ensures Valid(l) ==> Valid(r.0)
  {
    var i := FirstEmpty(l.entities, 0);
    var e := NewEntity(l.nextId, className, i);
    var slots := if i == |l.entities| then l.entities + [None] else l.entities;
    OccupiedPlace(l.entities, i, Some(e));
    (EntList(slots[i := Some(e)], l.count + 1, l.nextId + 1), e)
  }

  /** Placing an entity into an empty slot, or a slot appended at the end, occupies one more slot. */
  lemma OccupiedPlace(slots: seq<Option<Entity>>, i: nat, x: Option<Entity>)
    requires i <= |slots| && (i < |slots| ==> slots[i].None?)
    ensures var padded := if i == |slots| then slots + [None] else slots;
      && Occupied(padded[i := x]) == Occupied(slots) + (if x.Some? then 1 else 0)
      && (i == |slots| ==> padded[i := x] == slots + [x])
  {
    if i == |slots| {
      assert (slots + [None])[i := x] == slots + [x];
      OccupiedAppend(slots, x);
    } else {
      OccupiedUpdate(slots, i, x);
    }
  }

  /** The slot `Destroy` frees for `e`, if `e` is stored at its own index. */
  predicate IsStored(l: EntList, e: Entity)
  {
    e.index < |l.entities| && l.entities[e.index].Some? && l.entities[e.index].value.id == e.id
  }

  /**
   * `Destroy(e)`: when `e` is stored at its own index, that slot is emptied and
   * the count drops by 1; otherwise (including null) nothing changes.
   */
  function Destroy(l: EntList, e: Option<Entity>): (r: EntList)
    ensures e.None? ==> r == l
    ensures e.Some? && !IsStored(l, e.value) ==> r == l
    ensures e.Some? && IsStored(l, e.value) ==>
      && r.entities == l.entities[e.value.index := None]
      && r.nextId == l.nextId
      && (l.count > 0 ==> r.count == l.count - 1)
    ensures Valid(l) ==> Valid(r)
  {
    if e.None? then l
    else
      var i := e.value.index;
      if i >= |l.entities| || l.entities[i].None? || l.entities[i].value.id != e.value.id then l
      else
        OccupiedUpdate(l.entities, i, None);
        EntList(l.entities[i := None], if l.count == 0 then SIZE_T_MAX else l.count - 1, l.nextId)
  }

  /** Destroying a just-created entity frees its slot again: the vector is as before, with at most one extra empty slot. */
  lemma DestroyUndoesCreate(l: EntList, className: string)
    requires Valid(l)
    ensures var (l1, e) := Create(l, className);
      var l2 := Destroy(l1, Some(e));
      && l2.count == l.count
      && (l2.entities == l.entities || l2.entities == l.entities + [None])
  {
    var (l1, e) := Create(l, className);
    if e.index == |l.entities| {
      assert l1.entities[e.index := None] == l.entities + [None];
    } else {
      assert l1.entities[e.index := None] == l.entities;
    }
  }

  /**
   * The `Destroy` guard as written: it rejects an index only when it is
   * greater than the vector's size, so index == size goes on to read the slot
   * one past the end. `None` stands for that out-of-bounds read.
   */
  function DestroyAsWritten(l: EntList, e: Option<Entity>): (r: Option<EntList>)
    ensures r.None? <==> e.Some? && e.value.index == |l.entities|
    ensures r.Some? ==> r.value == Destroy(l, e)
  {
    if e.None? then Some(l)
    else
      var i := e.value.index;
      if |l.entities| < i then Some(l)
      else if i == |l.entities| then None
      else Some(Destroy(l, e))
  }

  /** An entity whose index equals the vector's size passes the written guard and reads past the end. */
  lemma DestroyAsWrittenReadsPastEnd()
    ensures DestroyAsWritten(EntList([], 0, 1), Some(NewEntity(0, "info_null", 0))).None?
  {
  }

  /** The guard of `Destroy` rejects every index outside the vector, so the slot read is always in range. */
  lemma DestroyGuardInRange(l: EntList, e: Entity)
    ensures IsStored(l, e) ==> e.index < |l.entities|
    ensures e.index >= |l.entities| ==> Destroy(l, Some(e)) == l
  {
  }

  /** The first occupied slot at or after `i`. */
  function NextFrom(slots: seq<Option<Entity>>, i: nat): (r: Option<Entity>)
    ensures r.Some? <==> exists j :: i <= j < |slots| && slots[j].Some?
    ensures r.Some? ==> exists j :: i <= j < |slots| && slots[j] == r && forall k :: i <= k < j ==> slots[k].None?
    decreases |slots| - i
  {
    if i >= |slots| then None
    else if slots[i].Some? then slots[i]
    else
      var next := i + 1;
      assert forall j :: i <= j < |slots| && slots[j].Some? ==> next <= j;
      NextFrom(slots, next)
  }

  /** `GetNextEntity(start)`: the first entity after the start's index, from slot 0 for null. */
  function GetNextEntity(l: EntList, start: Option<Entity>): (r: Option<Entity>)
    ensures var from := if start.None? then 0 else start.value.index + 1;
      && (r.None? <==> forall k :: from <= k < |l.entities| ==> l.entities[k].None?)
      && (r.Some? ==> exists j :: from <= j < |l.entities| && l.entities[j] == r
                                && forall k :: from <= k < j ==> l.entities[k].None?)
  {
    NextFrom(l.entities, if start.None? then 0 else start.value.index + 1)
  }

  /** `GetFirstEntity`. */
  function GetFirstEntity(l: EntList): (r: Option<Entity>)
    ensures r.None? <==> forall k :: 0 <= k < |l.entities| ==> l.entities[k].None?
    ensures r.Some? ==> exists j :: 0 <= j < |l.entities| && l.entities[j] == r
  {
    GetNextEntity(l, None)
  }

  /** In a valid list, walking with `GetNextEntity` from an entity yields the entity in the next occupied slot. */
  lemma NextEntityIsStored(l: EntList, start: Option<Entity>)
    requires Valid(l)
    ensures var r := GetNextEntity(l, start);
      r.Some? ==> IsStored(l, r.value) && (start.Some? ==> r.value.index > start.value.index)
  {
  }

  /** The `Clear` loop from slot `i` on: destroy whatever each slot holds when it is reached. */
  function DestroyFrom(l: EntList, i: nat): (r: EntList)
    requires i <= |l.entities|
    ensures |r.entities| == |l.entities| && r.nextId == l.nextId
    ensures Valid(l) ==> Valid(r)
    ensures Valid(l) ==> forall k :: i <= k < |r.entities| ==> r.entities[k].None?
    ensures Valid(l) ==> forall k :: 0 <= k < i ==> r.entities[k] == l.entities[k]
    decreases |l.entities| - i
  {
    if i == |l.entities| then l
    else
      var l1 := Destroy(l, l.entities[i]);
      DestroySlot(l, i);
      var next := i + 1;
      DestroyFrom(l1, next)
  }

  /** In a valid list, destroying what slot `i` holds empties that slot and no other. */
  lemma DestroySlot(l: EntList, i: nat)
    requires i < |l.entities|
    ensures var l1 := Destroy(l, l.entities[i]);
      |l1.entities| == |l.entities| && l1.nextId == l.nextId &&
      (Valid(l) ==> Valid(l1) && l1.entities == l.entities[i := None])
  {
  }

  /** `Clear`: every entity is destroyed and the vector emptied. */
  function Clear(l: EntList): (r: EntList)
    ensures r.entities == [] && r.nextId == l.nextId
    ensures Valid(l) ==> r.count == 0 && Valid(r)
  {
    ClearedCount(l);
    var l1 := DestroyFrom(l, 0);
    EntList([], l1.count, l1.nextId)
  }

  lemma ClearedCount(l: EntList)
    ensures Valid(l) ==> DestroyFrom(l, 0).count == 0
  {
    if Valid(l) {
      var l1 := DestroyFrom(l, 0);
      assert Valid(l1);
      assert forall k :: 0 <= k < |l1.entities| ==> l1.entities[k].None?;
      AllEmptyOccupied(l1.entities);
    }
  }

  lemma {:induction false} AllEmptyOccupied(slots: seq<Option<Entity>>)
    requires forall k :: 0 <= k < |slots| ==> slots[k].None?
    ensures Occupied(slots) == 0
  {
    if |slots| > 0 {
      AllEmptyOccupied(slots[..|slots| - 1]);
    }
  }
}
