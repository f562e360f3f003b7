/** A table whose primary key the store generates: the rows by id and the id the
    next insert receives. This replaces the relational store's identity columns;
    the only promise made about a new id is that it is fresh and larger than every
    id issued before it. */
module Tables {

  datatype Table<T> = Table(rows: map<nat, T>, nextId: nat) {

    /** Ids are positive and every issued id lies below `nextId`. */
    ghost predicate Valid() {
      1 <= nextId && forall id :: id in rows ==> 1 <= id < nextId
    }

    /** Saves a new row under a fresh id (`nextId`); every other row stays as it was. */
    function Insert(row: T): (r: Table<T>)
      requires Valid()
      ensures r.Valid()
      ensures nextId !in rows && nextId in r.rows && r.rows[nextId] == row
      ensures forall id :: id in r.rows <==> id in rows || id == nextId
      ensures |r.rows| == |rows| + 1 && r.nextId == nextId + 1
      ensures forall id :: id in rows ==> r.rows[id] == rows[id]
      ensures forall id :: id in rows ==> id < r.nextId - 1
    {
      Table(rows[nextId := row], nextId + 1)
    }
  }

  /** A table nothing was ever saved into. */
  function Empty<T>(): (r: Table<T>)
    ensures r.Valid() && |r.rows| == 0
  {
    Table(map[], 1)
  }
}
