/**
 * AbstractRepository: the generic table wrapper every service sits on.
 *
 * One table is a map from generated id to row. `nextId` is the table's id
 * sequence: an insert without an id takes it. No service inserts under an
 * explicit id that is not yet in the table; `SaveOne` keeps the counter past
 * every stored id so that a generated id never collides with a stored one.
 */
module Repositories {
  import opened Results

  /** A row read back from a table: its generated id and its columns. */
  datatype Row<E> = Row(id: int, entity: E)

  /** No two rows of the table agree on `key` (a unique column). */
  ghost predicate UniqueBy<E, K>(rows: map<int, E>, key: E -> K)
  {
    forall i, j :: i in rows && j in rows && i != j ==> key(rows[i]) != key(rows[j])
  }

  /** Some row of the table has `k` in the column `key`. */
  predicate KeyTaken<E, K(==)>(rows: map<int, E>, key: E -> K, k: K)
  {
    exists id :: id in rows && key(rows[id]) == k
  }

  /** Storing a row under a fresh id keeps the column unique exactly when its value is not taken. */
  lemma {:induction false} InsertKeepsUniqueBy<E, K>(rows: map<int, E>, key: E -> K, id: int, e: E)
    requires UniqueBy(rows, key) && id !in rows
    ensures UniqueBy(rows[id := e], key) <==> !KeyTaken(rows, key, key(e))
  {
    var after := rows[id := e];
    if KeyTaken(rows, key, key(e)) {
      var other :| other in rows && key(rows[other]) == key(e);
      assert other in after && id in after && other != id && key(after[other]) == key(after[id]);
    }
  }

  /** Rewriting one row without changing its value in the column keeps the column unique. */
  lemma SameKeyKeepsUniqueBy<E, K>(rows: map<int, E>, key: E -> K, id: int, e: E)
    requires UniqueBy(rows, key) && id in rows && key(e) == key(rows[id])
    ensures UniqueBy(rows[id := e], key)
  {
  }

  /**
   * Rewriting one row keeps the column unique exactly when no OTHER row
   * already has the new value.
   */
  lemma {:induction false} UpdateKeepsUniqueBy<E, K>(rows: map<int, E>, key: E -> K, id: int, e: E)
    requires UniqueBy(rows, key) && id in rows
    ensures UniqueBy(rows[id := e], key) <==> !KeyTaken(rows - {id}, key, key(e))
  {
    var after := rows[id := e];
    if KeyTaken(rows - {id}, key, key(e)) {
      var other :| other in rows - {id} && key((rows - {id})[other]) == key(e);
      assert other in after && id in after && other != id && key(after[other]) == key(after[id]);
    } else {
      forall i, j | i in after && j in after && i != j
        ensures key(after[i]) != key(after[j])
      {
        if i == id {
          assert j in rows - {id};
        } else if j == id {
          assert i in rows - {id};
        }
      }
    }
  }

  class Repository<E> {
    var rows: map<int, E>
    var nextId: int
    /** The message the repository's NotFoundException carries. */
    const notFoundMsg: string

    ghost predicate Valid()
      reads this
    {
      forall id :: id in rows ==> id < nextId
    }

    /** True when some row satisfies the query. */
    predicate Matches(where: (int, E) -> bool)
      reads this
    {
      exists id :: id in rows && where(id, rows[id])
    }

    constructor (notFoundMsg: string)
      ensures Valid()
      ensures rows == map[] && nextId == 1 && this.notFoundMsg == notFoundMsg
    {
      rows := map[];
      nextId := 1;
      this.notFoundMsg := notFoundMsg;
    }

    /** `findAll()` without options: every row of the table. */
    method FindAll() returns (all: map<int, E>)
      ensures all.Keys == rows.Keys
      ensures forall id :: id in all ==> all[id] == rows[id]
    {
      all := rows;
    }

    /** `findOne(where)`: some row the query matches, or null when none does. */
    method FindOne(where: (int, E) -> bool) returns (r: Option<Row<E>>)
      ensures r.None? <==> !Matches(where)
      ensures r.Some? ==> r.value.id in rows && rows[r.value.id] == r.value.entity
      ensures r.Some? ==> where(r.value.id, r.value.entity)
    {
      if Matches(where) {
        var id :| id in rows && where(id, rows[id]);
        r := Some(Row(id, rows[id]));
      } else {
        r := None;
      }
    }

    /** `findOneOrThrow(where)`: some matching row, or NotFound with the repository's message. */
    method FindOneOrThrow(where: (int, E) -> bool) returns (r: Result<Row<E>>)
      ensures r.Err? <==> !Matches(where)
      ensures r.Err? ==> r.error == NotFound(notFoundMsg)
      ensures r.Ok? ==> r.value.id in rows && rows[r.value.id] == r.value.entity
      ensures r.Ok? ==> where(r.value.id, r.value.entity)
    {
      var found := FindOne(where);
      if found.None? {
        return Err(NotFound(notFoundMsg));
      }
      r := Ok(found.value);
    }

    /** `create(entity)`: builds the entity to be saved; the table is not touched. */
    method Create(entity: E) returns (draft: E)
      ensures draft == entity
      ensures rows == old(rows) && nextId == old(nextId)
    {
      draft := entity;
    }

    /**
     * `saveOne(entity)`: an entity without an id is inserted under the next
     * generated id; one with an id replaces (or inserts) the row with that id.
     */
    method SaveOne(id: Option<int>, entity: E) returns (saved: Row<E>)
      requires Valid()
      modifies this
      ensures Valid()
      ensures saved.entity == entity
      ensures id.None? ==> saved.id == old(nextId) && saved.id !in old(rows)
      ensures id.Some? ==> saved.id == id.value
      ensures rows == old(rows)[saved.id := entity]
    {
      var key := if id.Some? then id.value else nextId;
      rows := rows[key := entity];
      if nextId <= key {
        nextId := key + 1;
      }
      saved := Row(key, entity);
    }

    /**
     * `findOneAndUpdate(where, update)`: NotFound when no row matches;
     * otherwise `assign(row, update)` is written back over the row found.
     */
    method FindOneAndUpdate<P>(where: (int, E) -> bool, update: P, assign: (E, P) -> E)
      returns (r: Result<Row<E>>)
      requires Valid()
      modifies this
      ensures Valid()
      ensures !old(Matches(where)) ==> r == Err(NotFound(notFoundMsg)) && rows == old(rows)
      ensures old(Matches(where)) ==> r.Ok?
      ensures r.Ok? ==>
        && r.value.id in old(rows)
        && where(r.value.id, old(rows)[r.value.id])
        && r.value.entity == assign(old(rows)[r.value.id], update)
        && rows == old(rows)[r.value.id := r.value.entity]
    {
      var found := FindOne(where);
      if found.None? {
        return Err(NotFound(notFoundMsg));
      }
      var entity := assign(found.value.entity, update);
      var saved := SaveOne(Some(found.value.id), entity);
      r := Ok(saved);
    }

    /** `delete(id)`: that row is gone, every other row stays; an absent id is no error. */
    method Delete(id: int)
      requires Valid()
      modifies this
      ensures Valid()
      ensures rows == old(rows) - {id}
      ensures nextId == old(nextId)
    {
      rows := rows - {id};
    }
  }
}
