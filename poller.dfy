/**
 * One polling tick (`getData`): the upstream occupancy document, already
 * fetched and decoded, is written to the table as one row per dining hall,
 * all stamped with the instant the tick read the clock.
 */
module Poller {
  import opened Options
  import opened Store

  /** The two fields of an upstream hall record that the tick reads. */
  datatype HallRecord = HallRecord(displayName: string, availability: int)

  /**
   * One key of the upstream `diningHalls` object, in the order `for ... in`
   * visits the keys. `record` is `None` when the value under the key is JSON
   * `null`: reading `display_name` from it throws.
   */
  datatype Entry = Entry(key: string, record: Option<HallRecord>)

  /** The sample the tick builds from a hall record at `now`. */
  function SampleOf(h: HallRecord, now: string): Sample
  {
    Sample(h.displayName, h.availability, now)
  }

  /**
   * The samples a tick with an ok response writes from `halls[from..]`.
   * `failed` holds the positions whose insert the storage engine rejects;
   * such a rejection is only logged and the loop goes on. A `null` entry
   * throws out of the loop into the tick's `catch`, so nothing after it is
   * written.
   */
  function Written(halls: seq<Entry>, now: string, failed: set<nat>, from: nat): (r: seq<Sample>)
    requires from <= |halls|
    decreases |halls| - from
    ensures |r| <= |halls| - from
    ensures forall k :: 0 <= k < |r| ==> r[k].timestamp == now
    ensures forall k :: 0 <= k < |r| ==> CopiedFrom(r[k], halls, failed, from, |halls|)
  {
    if from == |halls| then []
    else
      match halls[from].record
      case None => []
      case Some(h) =>
        var rest := Written(halls, now, failed, from + 1);
        if from in failed then rest else [SampleOf(h, now)] + rest
  }

  /** `s` is the sample of some hall in `halls[from..upto]` whose insert succeeds. */
  ghost predicate CopiedFrom(s: Sample, halls: seq<Entry>, failed: set<nat>, from: nat, upto: nat)
  {
    exists j :: from <= j < upto && j < |halls| && j !in failed &&
      halls[j].record == Some(HallRecord(s.hallName, s.availability))
  }

  /** What a whole tick writes: nothing unless the upstream response is ok. */
  function TickSamples(ok: bool, halls: seq<Entry>, now: string, failed: set<nat>): (r: seq<Sample>)
    ensures !ok ==> r == []
    ensures |r| <= |halls|
  {
    if ok then Written(halls, now, failed, 0) else []
  }

  /**
   * With no `null` entry and no rejected insert, the tick writes exactly one
   * sample per hall, in key order, copying `display_name` and `availability`
   * unchanged.
   */
  lemma {:induction false} WrittenOnePerHall(halls: seq<Entry>, now: string, failed: set<nat>, from: nat)
    requires from <= |halls|
    requires forall j :: from <= j < |halls| ==> halls[j].record.Some? && j !in failed
    ensures |Written(halls, now, failed, from)| == |halls| - from
    ensures forall k :: 0 <= k < |halls| - from ==>
      Written(halls, now, failed, from)[k] == SampleOf(halls[from + k].record.value, now)
    decreases |halls| - from
  {
    if from < |halls| {
      WrittenOnePerHall(halls, now, failed, from + 1);
    }
  }

  /** Number of positions in `[from, upto)` whose insert is not rejected. */
  function Kept(failed: set<nat>, from: nat, upto: nat): nat
    decreases upto - from
  {
    if from >= upto then 0 else (if from in failed then 0 else 1) + Kept(failed, from + 1, upto)
  }

  /**
   * A rejected insert does not stop the loop: as long as no entry is `null`,
   * every hall whose insert succeeds is written, at its own position among
   * the kept entries before it.
   */
  lemma {:induction false} WrittenDespiteFailures(halls: seq<Entry>, now: string, failed: set<nat>, from: nat, j: nat)
    requires from <= j < |halls| && j !in failed
    requires forall i :: from <= i <= j ==> halls[i].record.Some?
    ensures Kept(failed, from, j) < |Written(halls, now, failed, from)|
    ensures Written(halls, now, failed, from)[Kept(failed, from, j)] == SampleOf(halls[j].record.value, now)
    // A corollary of the two clauses above, kept for callers that need membership only.
    ensures SampleOf(halls[j].record.value, now) in Written(halls, now, failed, from)
    decreases j - from
  {
    if from < j {
      WrittenDespiteFailures(halls, now, failed, from + 1, j);
    }
  }

  /**
   * Nothing at or after a `null` entry is written: every sample comes from a
   * kept entry before it, and when it is the first `null` the tick writes
   * exactly one sample per kept entry before it.
   */
  lemma {:induction false} WrittenStopsAtNull(halls: seq<Entry>, now: string, failed: set<nat>, from: nat, j: nat)
    requires from <= j < |halls| && halls[j].record.None?
    ensures (forall i :: from <= i < j ==> halls[i].record.Some?) ==>
      |Written(halls, now, failed, from)| == Kept(failed, from, j)
    ensures |Written(halls, now, failed, from)| <= j - from
    ensures forall s :: s in Written(halls, now, failed, from) ==> CopiedFrom(s, halls, failed, from, j)
    decreases j - from
  {
    if from < j {
      WrittenStopsAtNull(halls, now, failed, from + 1, j);
    }
  }

  /**
   * With no `null` entry, a rejected insert writes nothing and every other
   * entry writes one sample: the tick writes exactly as many samples as
   * there are kept entries.
   */
  lemma {:induction false} WrittenCountsKept(halls: seq<Entry>, now: string, failed: set<nat>, from: nat)
    requires from <= |halls|
    requires forall i :: from <= i < |halls| ==> halls[i].record.Some?
    ensures |Written(halls, now, failed, from)| == Kept(failed, from, |halls|)
    decreases |halls| - from
  {
    if from < |halls| {
      WrittenCountsKept(halls, now, failed, from + 1);
    }
  }

  /**
   * `getData` after the fetch: `ok` is the response's ok flag, `halls` the
   * decoded `diningHalls` entries, `now` the tick's `toISOString()` instant and
   * `failed` the positions whose insert is rejected. The existing rows stay as
   * they are; the new rows carry the next ids in order.
   */
  method GetData(db: DiningHallData, ok: bool, halls: seq<Entry>, now: string, failed: set<nat>)
    requires db.Valid()
    modifies db
    ensures db.Valid()
    ensures |old(db.rows)| <= |db.rows| && db.rows[..|old(db.rows)|] == old(db.rows)
    ensures Samples(db.rows) == Samples(old(db.rows)) + TickSamples(ok, halls, now, failed)
    ensures forall k :: |old(db.rows)| <= k < |db.rows| ==> db.rows[k].id == old(db.nextId) + (k - |old(db.rows)|)
    ensures db.nextId == old(db.nextId) + (|db.rows| - |old(db.rows)|)
    ensures !ok ==> db.rows == old(db.rows) && db.nextId == old(db.nextId)
  {
    if !ok {
      return;
    }
    ghost var before := db.rows;
    var i := 0;
    while i < |halls|
      invariant 0 <= i <= |halls|
      invariant db.Valid()
      invariant |before| <= |db.rows| && db.rows[..|before|] == before
      invariant Samples(before) + Written(halls, now, failed, 0)
             == Samples(db.rows) + Written(halls, now, failed, i)
      invariant forall k :: |before| <= k < |db.rows| ==> db.rows[k].id == old(db.nextId) + (k - |before|)
      invariant db.nextId == old(db.nextId) + (|db.rows| - |before|)
    {
      match halls[i].record {
        case None =>
          // TypeError reading `display_name`: the tick's catch ends it here.
          break;
        case Some(h) =>
          var _ := db.Insert(h.displayName, h.availability, now, i in failed);
      }
      i := i + 1;
    }
  }
}
