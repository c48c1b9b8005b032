/**
 * The poller and the capacity endpoint share one table: what a tick writes
 * is what the endpoint later reads.
 */
module Service {
  import opened Options
  import opened TextOrder
  import opened Store
  import opened Poller
  import opened CapacityQuery

  /**
   * A hall written by an ok tick is returned verbatim (same name, same
   * availability) by a request for that hall whose bounds are the tick's own
   * timestamp. `after` is any table the tick leaves behind, as `GetData`
   * describes it.
   */
  lemma TickThenQuery(before: seq<Row>, after: seq<Row>, halls: seq<Entry>, now: string, failed: set<nat>, j: nat)
    requires Samples(after) == Samples(before) + TickSamples(true, halls, now, failed)
    requires j < |halls| && j !in failed
    requires forall i :: 0 <= i <= j ==> halls[i].record.Some?
    ensures var resp := GetCapacity(after, halls[j].record.value.displayName, Some(now), Some(now), false);
      resp.status == 200 && SampleOf(halls[j].record.value, now) in resp.body.samples
  {
    var h := halls[j].record.value;
    var s := SampleOf(h, now);
    WrittenDespiteFailures(halls, now, failed, 0, j);
    assert s in Samples(after);
    TextLeReflexive(now);
    FilterMembers(after, h.displayName, Some(now), Some(now), s);
  }

  /**
   * Ticks keep the table oldest first as long as the clock does not go back:
   * every sample of one tick carries the same instant, so appending them to a
   * chronological table whose samples are no later than that instant leaves
   * it chronological.
   */
  lemma TickKeepsChronology(before: seq<Sample>, ok: bool, halls: seq<Entry>, now: string, failed: set<nat>)
    requires Chronological(before)
    requires forall i :: 0 <= i < |before| ==> TextLe(before[i].timestamp, now)
    ensures Chronological(before + TickSamples(ok, halls, now, failed))
  {
    var tick := TickSamples(ok, halls, now, failed);
    var all := before + tick;
    TextLeReflexive(now);
    forall i, j | 0 <= i < j < |all|
      ensures TextLe(all[i].timestamp, all[j].timestamp)
    {
      if j < |before| {
        assert all[i] == before[i] && all[j] == before[j];
      } else if i < |before| {
        assert all[i] == before[i] && all[j] == tick[j - |before|];
      } else {
        assert all[i] == tick[i - |before|] && all[j] == tick[j - |before|];
      }
    }
  }

  /**
   * One tick followed by one request, on the shared table: the hall at
   * position `j` of an ok tick with no rejected insert and no `null` entry
   * is found by a request bounded by the tick's instant.
   */
  method PollThenQuery(db: DiningHallData, halls: seq<Entry>, now: string, j: nat) returns (resp: Response)
    requires db.Valid()
    requires j < |halls|
    requires forall i :: 0 <= i < |halls| ==> halls[i].record.Some?
    modifies db
    ensures db.Valid()
    ensures resp.status == 200 && resp.body.Json?
    ensures SampleOf(halls[j].record.value, now) in resp.body.samples
  {
    ghost var before := db.rows;
    GetData(db, true, halls, now, {});
    var name := halls[j].record.value.displayName;
    resp := GetCapacity(db.rows, name, Some(now), Some(now), false);
    TickThenQuery(before, db.rows, halls, now, {}, j);
  }
}
