/**
 * The `dining_hall_data` table: `id INTEGER PRIMARY KEY AUTOINCREMENT`,
 * `hall_name TEXT`, `availability INTEGER`, `timestamp DATETIME`. The service
 * only ever inserts into it; no statement updates or deletes a row.
 */
module Store {

  /** The three columns a capacity query selects. */
  datatype Sample = Sample(hallName: string, availability: int, timestamp: string)

  /** One stored row: the id SQLite assigned and the sample written with it. */
  datatype Row = Row(id: int, sample: Sample)

  /** The samples of `rows`, in table order (the `SELECT` list drops the id). */
  function Samples(rows: seq<Row>): (s: seq<Sample>)
    ensures |s| == |rows|
    ensures forall i :: 0 <= i < |rows| ==> s[i] == rows[i].sample
  {
    seq(|rows|, i requires 0 <= i < |rows| => rows[i].sample)
  }

  /** Ids grow strictly along the table and stay below the next id to assign. */
  ghost predicate IdsIncreasing(rows: seq<Row>, nextId: int)
  {
    && (forall i, j :: 0 <= i < j < |rows| ==> rows[i].id < rows[j].id)
    && (forall i :: 0 <= i < |rows| ==> 1 <= rows[i].id < nextId)
  }

  /**
   * Appending a row that carries the next id keeps the ids increasing, and the
   * next id after it is one more.
   */
  lemma AppendKeepsIdsIncreasing(rows: seq<Row>, nextId: int, s: Sample)
    requires IdsIncreasing(rows, nextId) && nextId >= 1
    ensures IdsIncreasing(rows + [Row(nextId, s)], nextId + 1)
  {
  }

  class DiningHallData {
    /** The rows in insertion (id) order. */
    var rows: seq<Row>
    /** The id the next successful insert receives (SQLite's sequence value plus one). */
    var nextId: int

    ghost predicate Valid()
      reads this
    {
      nextId >= 1 && IdsIncreasing(rows, nextId)
    }

    /** `CREATE TABLE IF NOT EXISTS` on a database that did not hold the table. */
    constructor ()
      ensures Valid()
      ensures rows == [] && nextId == 1
    {
      rows := [];
      nextId := 1;
    }

    /**
     * `INSERT INTO dining_hall_data (hall_name, availability, timestamp)`.
     * `fault` stands for an insert the storage engine rejects: the statement
     * then writes nothing and no id is consumed.
     */
    method Insert(hallName: string, availability: int, timestamp: string, fault: bool) returns (inserted: bool)
      requires Valid()
      modifies this
      ensures Valid()
      ensures inserted == !fault
      ensures fault ==> rows == old(rows) && nextId == old(nextId)
      ensures !fault ==> rows == old(rows) + [Row(old(nextId), Sample(hallName, availability, timestamp))]
      ensures !fault ==> nextId == old(nextId) + 1
    {
      if fault {
        return false;
      }
      AppendKeepsIdsIncreasing(rows, nextId, Sample(hallName, availability, timestamp));
      rows := rows + [Row(nextId, Sample(hallName, availability, timestamp))];
      nextId := nextId + 1;
      inserted := true;
    }
  }
}
