/** The rule-set table as the commands see it: query by id or all rows,
    create with an auto-incremented primary key, partial update, remove.
    Rows are kept in creation order; ids increase strictly along the table,
    which makes `id` the unique key that src/core/orm.ts configures. */
module Database {
  import opened Types

  /** The partial update a command asks to persist (`markUpdate`): one field. */
  datatype Delta = RuleDelta(rule: Rule) | NameDelta(name: string) | ModeDelta(mode: Mode) | EnabledDelta(enabled: bool)

  /** `{ ...markUpdate, updatedAt: now }` written onto one row. */
  function ApplyDelta(row: RuleSet, delta: Delta, now: int): (r: RuleSet)
    ensures r.id == row.id && r.createdAt == row.createdAt && r.updatedAt == now
    ensures r.rule == (if delta.RuleDelta? then delta.rule else row.rule)
    ensures r.name == (if delta.NameDelta? then delta.name else row.name)
    ensures r.mode == (if delta.ModeDelta? then delta.mode else row.mode)
    ensures r.enabled == (if delta.EnabledDelta? then delta.enabled else row.enabled)
  {
    match delta
    case RuleDelta(rule) => row.(rule := rule, updatedAt := now)
    case NameDelta(name) => row.(name := name, updatedAt := now)
    case ModeDelta(mode) => row.(mode := mode, updatedAt := now)
    case EnabledDelta(enabled) => row.(enabled := enabled, updatedAt := now)
  }

  /** The primary-key invariant: ids strictly increase in table order. */
  predicate IdsIncreasing(rows: seq<RuleSet>) {
    forall i, j :: 0 <= i < j < |rows| ==> rows[i].id < rows[j].id
  }

  /** Index of the first row with the given id, or -1. */
  function IndexOf(rows: seq<RuleSet>, id: nat): (k: int)
    ensures -1 <= k < |rows|
    ensures k == -1 <==> forall i :: 0 <= i < |rows| ==> rows[i].id != id
    ensures k >= 0 ==> rows[k].id == id && forall j :: 0 <= j < k ==> rows[j].id != id
    decreases |rows|
  {
    if |rows| == 0 then -1
    else if rows[0].id == id then 0
    else
      var k := IndexOf(rows[1..], id);
      if k == -1 then -1 else k + 1
  }

  /** `database.get(table, { id })[0]`, or None when nothing matches. */
  function FirstWithId(rows: seq<RuleSet>, id: nat): (r: Option<RuleSet>)
    ensures r.None? <==> forall i :: 0 <= i < |rows| ==> rows[i].id != id
    ensures r.Some? ==> r.value.id == id && r.value in rows
  {
    var k := IndexOf(rows, id);
    if k == -1 then None else Some(rows[k])
  }

  /** `database.set(table, { id }, update)`: every row with that id is updated. */
  function SetWhere(rows: seq<RuleSet>, id: nat, delta: Delta, now: int): (r: seq<RuleSet>)
    ensures |r| == |rows|
    ensures forall i :: 0 <= i < |rows| ==>
      r[i] == if rows[i].id == id then ApplyDelta(rows[i], delta, now) else rows[i]
    decreases |rows|
  {
    if |rows| == 0 then []
    else
      [if rows[0].id == id then ApplyDelta(rows[0], delta, now) else rows[0]]
        + SetWhere(rows[1..], id, delta, now)
  }

  /** `database.remove(table, { id })`: the rows without that id, in order. */
  function Without(rows: seq<RuleSet>, id: nat): (r: seq<RuleSet>)
    ensures forall i :: 0 <= i < |r| ==> r[i].id != id
    ensures forall x :: x in r <==> x in rows && x.id != id
    ensures |r| <= |rows|
    decreases |rows|
  {
    if |rows| == 0 then []
    else if rows[0].id == id then Without(rows[1..], id)
    else [rows[0]] + Without(rows[1..], id)
  }

  /** With unique ids, the update is visible to the next lookup of that id and
      only there. */
  lemma {:induction false} LookupAfterSet(rows: seq<RuleSet>, id: nat, delta: Delta, now: int, other: nat)
    requires IdsIncreasing(rows)
    ensures FirstWithId(SetWhere(rows, id, delta, now), id)
         == (match FirstWithId(rows, id)
             case None => None
             case Some(row) => Some(ApplyDelta(row, delta, now)))
    ensures other != id ==> FirstWithId(SetWhere(rows, id, delta, now), other) == FirstWithId(rows, other)
  {
    var r := SetWhere(rows, id, delta, now);
    var k, k' := IndexOf(rows, id), IndexOf(r, id);
    assert k' == k by {
      if k >= 0 {
        assert r[k].id == id;
        assert forall j :: 0 <= j < k ==> r[j].id != id;
      } else {
        assert forall i :: 0 <= i < |r| ==> r[i].id != id;
      }
    }
    if other != id {
      var m, m' := IndexOf(rows, other), IndexOf(r, other);
      assert m' == m by {
        if m >= 0 {
          assert r[m].id == other;
          assert forall j :: 0 <= j < m ==> r[j].id != other;
        } else {
          assert forall i :: 0 <= i < |r| ==> r[i].id != other;
        }
      }
      if m >= 0 {
        assert rows[m].id != id;
      }
    }
  }

  /** With unique ids, a lookup finds the one row carrying that id. */
  lemma LookupUnique(rows: seq<RuleSet>, x: RuleSet)
    requires IdsIncreasing(rows)
    requires x in rows
    ensures FirstWithId(rows, x.id) == Some(x)
  {
    var i :| 0 <= i < |rows| && rows[i] == x;
    var k := IndexOf(rows, x.id);
    assert k == i;
  }

  /** Removing rows keeps every remaining id above a bound the old ids were above. */
  lemma WithoutIdsAbove(rows: seq<RuleSet>, id: nat, bound: int)
    requires forall i :: 0 <= i < |rows| ==> bound < rows[i].id
    ensures forall i :: 0 <= i < |Without(rows, id)| ==> bound < Without(rows, id)[i].id
  {
    var r := Without(rows, id);
    forall i | 0 <= i < |r| ensures bound < r[i].id {
      assert r[i] in r;
      var k :| 0 <= k < |rows| && rows[k] == r[i];
    }
  }

  /** A row whose id is below every id of an increasing sequence extends it. */
  lemma ConsIncreasing(head: RuleSet, rest: seq<RuleSet>)
    requires IdsIncreasing(rest)
    requires forall i :: 0 <= i < |rest| ==> head.id < rest[i].id
    ensures IdsIncreasing([head] + rest)
  {
    var r := [head] + rest;
    forall i, j | 0 <= i < j < |r| ensures r[i].id < r[j].id {
      assert r[j] == rest[j - 1];
      if i > 0 {
        assert r[i] == rest[i - 1];
      }
    }
  }

  /** Removing rows keeps the ids increasing. */
  lemma {:induction false} WithoutIncreasing(rows: seq<RuleSet>, id: nat)
    requires IdsIncreasing(rows)
    ensures IdsIncreasing(Without(rows, id))
    decreases |rows|
  {
    if |rows| > 0 {
      var tail := rows[1..];
      assert IdsIncreasing(tail) by {
        forall i, j | 0 <= i < j < |tail| ensures tail[i].id < tail[j].id {
          assert tail[i] == rows[i + 1] && tail[j] == rows[j + 1];
        }
      }
      WithoutIncreasing(tail, id);
      if rows[0].id != id {
        forall i | 0 <= i < |tail| ensures rows[0].id < tail[i].id {
          assert tail[i] == rows[i + 1];
        }
        WithoutIdsAbove(tail, id, rows[0].id);
        ConsIncreasing(rows[0], Without(tail, id));
      }
    }
  }

  /** After removal the id is gone and every other lookup is unchanged. */
  lemma LookupAfterRemove(rows: seq<RuleSet>, id: nat, other: nat)
    requires IdsIncreasing(rows)
    ensures IdsIncreasing(Without(rows, id))
    ensures FirstWithId(Without(rows, id), id).None?
    ensures other != id ==> FirstWithId(Without(rows, id), other) == FirstWithId(rows, other)
  {
    var r := Without(rows, id);
    WithoutIncreasing(rows, id);
    if other != id {
      match FirstWithId(rows, other)
      case Some(x) =>
        assert x in r;
        LookupUnique(r, x);
      case None =>
        forall i | 0 <= i < |r| ensures r[i].id != other {
          assert r[i] in rows;
        }
    }
  }

  /** The table. */
  class Store {
    var rows: seq<RuleSet>
    /** The next value of the auto-incremented primary key. */
    var nextId: nat

    ghost predicate Valid()
      reads this
    {
      IdsIncreasing(rows) && forall i :: 0 <= i < |rows| ==> rows[i].id < nextId
    }

    /** The table as `migrate` creates it: empty, with the key counter at its start. */
    constructor ()
      ensures Valid() && rows == [] && nextId == 0
    {
      rows := [];
      nextId := 0;
    }

    function Lookup(id: nat): Option<RuleSet>
      reads this
    {
      FirstWithId(rows, id)
    }

    /** `database.get(table, { id })`, returning the first match. */
    method Find(id: nat) returns (r: Option<RuleSet>)
      ensures r == Lookup(id)
    {
      var i := 0;
      while i < |rows|
        invariant 0 <= i <= |rows|
        invariant forall j :: 0 <= j < i ==> rows[j].id != id
      {
        if rows[i].id == id {
          r := Some(rows[i]);
          return;
        }
        i := i + 1;
      }
      r := None;
    }

    /** `database.create(table, record)`: the store assigns the next id. */
    method Create(record: RuleSet) returns (id: nat)
      requires Valid()
      modifies this
      ensures Valid()
      ensures Lookup(id) == Some(record.(id := id))
      ensures old(Lookup(id)).None?
      ensures rows == old(rows) + [record.(id := id)]
    {
      id := nextId;
      rows := rows + [record.(id := id)];
      nextId := nextId + 1;
      assert IdsIncreasing(rows) by {
        forall i, j | 0 <= i < j < |rows| ensures rows[i].id < rows[j].id {
          if j == |rows| - 1 { assert rows[i] == old(rows)[i]; }
        }
      }
      LookupUnique(rows, record.(id := id));
    }

    /** `database.set(table, { id }, { ...delta, updatedAt: now })`. */
    method Set(id: nat, delta: Delta, now: int)
      requires Valid()
      modifies this
      ensures Valid() && nextId == old(nextId)
      ensures rows == SetWhere(old(rows), id, delta, now)
      ensures Lookup(id) == (match old(Lookup(id))
                             case None => None
                             case Some(row) => Some(ApplyDelta(row, delta, now)))
      ensures forall other :: other != id ==> Lookup(other) == old(Lookup(other))
    {
      forall other | other != id
        ensures FirstWithId(SetWhere(rows, id, delta, now), other) == FirstWithId(rows, other)
      {
        LookupAfterSet(rows, id, delta, now, other);
      }
      LookupAfterSet(rows, id, delta, now, id);
      var updated := SetWhere(rows, id, delta, now);
      assert forall i :: 0 <= i < |rows| ==> updated[i].id == rows[i].id;
      rows := updated;
    }

    /** `database.remove(table, { id })`. */
    method Remove(id: nat)
      requires Valid()
      modifies this
      ensures Valid() && nextId == old(nextId)
      ensures rows == Without(old(rows), id)
      ensures Lookup(id).None?
      ensures forall other :: other != id ==> Lookup(other) == old(Lookup(other))
    {
      forall other | other != id
        ensures FirstWithId(Without(rows, id), other) == FirstWithId(rows, other)
      {
        LookupAfterRemove(rows, id, other);
      }
      LookupAfterRemove(rows, id, id);
      var kept := Without(rows, id);
      forall i | 0 <= i < |kept| ensures kept[i].id < nextId {
        assert kept[i] in rows;
      }
      rows := kept;
    }
  }
}
