# UGA dining-hall capacity service, modelled in Dafny

The backend of this project polls the university's occupancy API every five
minutes, appends one row per dining hall to the SQLite table
`dining_hall_data`, and serves `GET /api/capacity/:hall` with optional
`startTime` / `endTime` bounds. This Dafny project models that backend
(`backend/server.js`):

- `options.dfy` — `Options.Option`, for values that may be absent.
- `text_order.dfy` — `TextOrder.TextLe`, SQLite's BINARY collation on TEXT
  (character by character, a proper prefix first). Timestamps are the ISO-8601
  text `toISOString` writes, and the time bounds are compared with them in this
  order. Dafny's `char` is a Unicode scalar value, and code-point order is the
  order of their UTF-8 bytes, which is what SQLite's `memcmp` compares. The
  lemmas prove it is a total order.
- `store.dfy` — the table as the class `Store.DiningHallData`. It holds a
  `seq` of rows `(id, hall_name, availability, timestamp)` and the next
  AUTOINCREMENT id. `Insert` is the only way to change it. `Valid()` says the
  ids are at least 1, strictly increasing, and below the next id.
- `poller.dfy` — one tick of `getData`. `GetData` is a method with a `while`
  loop over the decoded `diningHalls` entries. It is proved against the
  function `Written`, the samples a tick writes. Its inputs are the ok flag,
  the entries in `for ... in` order, the tick's `now`, and the set of entry
  positions whose insert the storage engine rejects.
- `capacity_query.dfy` — the capacity endpoint. `BuildQuery` is the four-way
  choice of time condition and the parameter list. `Select` is SQLite
  evaluating that statement. `Filter` is the reference meaning, stated bound by
  bound by `InRange`. `SelectIsFilter` proves the two agree. `GetCapacity`
  answers 500, 404 or 200.
- `service.dfy` — the poller and the endpoint together: a hall a tick writes
  is found again by a request, and ticks keep the table chronological.

Modelling choices:
- A bound is `None` when the query string lacks it. JavaScript truthiness
  makes `Some("")` count as absent too.
- An upstream entry whose value is JSON `null` is `record == None`. Reading
  `display_name` from it throws, and the tick's `catch` swallows the error, so
  the entries after it are not written. The rows already handed to
  `stmt.run` stay. So a tick writes one row per hall only when no entry is
  `null` and no insert is rejected (`WrittenOnePerHall`).
- A rejected insert writes nothing and uses no id.
- The statement has no `ORDER BY`. The model returns rows in table (id) order.
  This is a modelling choice; the code does not promise it.
- The handler reads the rows as they stand when `db.all` runs (a snapshot).

## Model

| member | source | states |
|---|---|---|
| `TextOrder.TextLe` | backend/server.js:120-128 | SQLite's BINARY comparison of two TEXT values: a prefix sorts at or before the longer text, a smaller first character sorts first, and a non-empty text never sorts at or before the empty one |
| `TextOrder.TextLeFirstDifference` | backend/server.js:120-128 | the first differing character decides: two texts that agree up to position `k` and differ there are ordered strictly by that character, whatever follows |
| `TextOrder.TextLeReflexive` | backend/server.js:120-128 | every timestamp text compares `<=` to itself, so a range's endpoints can match |
| `TextOrder.TextLeAntisymmetric` | backend/server.js:120-128 | two texts each `<=` the other are equal |
| `TextOrder.TextLeTransitive` | backend/server.js:120-128 | the text order used by `>=`, `<=` and `BETWEEN` is transitive |
| `TextOrder.TextLeTotal` | backend/server.js:120-128 | any two timestamp texts are comparable |
| `Store.AppendKeepsIdsIncreasing` | backend/server.js:51 | appending a row with the next AUTOINCREMENT id keeps the ids strictly increasing, and the next id becomes one more |
| `Store.DiningHallData.constructor` | backend/server.js:49-56 | a newly created table is empty, and its first id will be 1 |
| `Store.DiningHallData.Insert` | backend/server.js:74-91 | a successful insert appends exactly one row `(nextId, hall_name, availability, timestamp)` and leaves the earlier rows alone; a rejected one changes nothing and uses no id |
| `Poller.Written` | backend/server.js:80-97 | a tick writes at most one sample per entry; every sample carries the tick's timestamp and the name and availability of an entry whose insert succeeded, copied unchanged (the exact count is stated by `WrittenCountsKept` and `WrittenStopsAtNull`) |
| `Poller.TickSamples` | backend/server.js:64-67 | a tick whose upstream response is not ok writes nothing |
| `Poller.WrittenOnePerHall` | backend/server.js:80-92 | with no `null` entry and no rejected insert, the tick writes exactly one sample per hall, in key order, with `display_name` and `availability` copied unchanged (no clamping) and the tick's timestamp |
| `Poller.WrittenDespiteFailures` | backend/server.js:85-91 | a rejected insert is only logged: every hall before the first `null` entry whose insert succeeds is written, at the position given by the number of non-rejected entries before it (so two halls with the same record each get their own row) |
| `Poller.WrittenStopsAtNull` | backend/server.js:80-97 | a `null` hall entry throws into the tick's `catch`: nothing at or after it is written; every sample the tick writes comes from a non-rejected entry before it, and before the first `null` the tick writes exactly one sample per non-rejected entry |
| `Poller.WrittenCountsKept` | backend/server.js:80-92 | with no `null` entry, a rejected insert writes no row and every other entry writes one: the tick writes exactly as many samples as there are non-rejected entries |
| `Poller.GetData` | backend/server.js:60-98 | the tick's rows are appended after the untouched existing rows, in order, with consecutive fresh ids; a not-ok response leaves table and id counter unchanged |
| `CapacityQuery.EmptyBoundIsAbsent` | backend/server.js:120-126 | JavaScript truthiness: an empty-string start or end bound builds exactly the query an absent one does |
| `CapacityQuery.FilterSql` | backend/server.js:120-129 | the text `query +=` appends for each condition (`BETWEEN ? AND ?`, `>= ?`, `<= ?`, or nothing) has one `?` per bound the condition reads |
| `CapacityQuery.SqlText` | backend/server.js:113-129 | the statement starts with the base `SELECT ... WHERE hall_name = ?` (`SelectSql`) and has one `?` for the hall plus one per bound its condition reads |
| `CapacityQuery.BetweenIsBothBounds` | backend/server.js:121 | `timestamp BETWEEN a AND b` accepts exactly what `timestamp >= a` and `timestamp <= b` both accept |
| `CapacityQuery.BuildQuery` | backend/server.js:113-129 | the parameters are the hall, then start and/or end, in that order, for exactly the truthy bounds (`""` is absent); as many as the statement's placeholders; the `WHERE` clause holds of a sample iff it is for the hall and within every present bound, both ends inclusive |
| `CapacityQuery.Select` | backend/server.js:113-131 | running the statement returns a sample iff some row holds it and the `WHERE` clause accepts it: every returned sample is stored and accepted, and every accepted row is returned |
| `CapacityQuery.SelectIsFilter` | backend/server.js:113-131 | running the built query gives exactly the samples in range, in table order |
| `CapacityQuery.FilterMembers` | backend/server.js:113-131 | a sample is in the answer iff it is stored and in range |
| `CapacityQuery.Execute` | backend/server.js:131 | `db.all` reports an error exactly on a storage fault; otherwise its rows are stored samples the statement accepts, and every accepted row is among them |
| `CapacityQuery.Classify` | backend/server.js:131-140 | a storage error gives 500, an empty result 404, and a non-empty result 200 carrying exactly those rows |
| `CapacityQuery.GetCapacity` | backend/server.js:108-141 | a storage fault answers 500; otherwise the empty reference answer gives 404, never 500, and a non-empty one gives 200 with exactly those samples |
| `CapacityQuery.UnknownHallNotFound` | backend/server.js:131-137 | a hall no row carries gets 404, whatever the bounds |
| `CapacityQuery.OkAnswerMatchesRequest` | backend/server.js:113-138 | every sample of a 200 answer is stored, has `hall_name` equal to the requested hall, and lies within the present bounds |
| `CapacityQuery.UnboundedIsWholeHistory` | backend/server.js:113-129 | with no truthy bound no time condition is added and nothing limits the answer: on any table, each sample of the hall comes back exactly as many times as it is stored |
| `CapacityQuery.BoundsInclusive` | backend/server.js:120-122 | `BETWEEN` includes both endpoints |
| `CapacityQuery.FilterChronological` | backend/server.js:113-131 | on a table stored oldest first, the answer is oldest first |
| `Service.TickThenQuery` | backend/server.js:70-92 | a hall an ok tick writes is returned verbatim (same name, same availability) with 200 by a request bounded by the tick's timestamp |
| `Service.TickKeepsChronology` | backend/server.js:70 | one shared timestamp per tick: appending a tick whose instant is no earlier than the stored ones keeps the table chronological |
| `Service.PollThenQuery` | backend/server.js:60-141 | a tick followed by a request on the shared table finds the polled hall with 200 |

## Left out

- The HTTP fetch, `response.json()` and the read of `json.diningHalls` are
  not modelled. The tick takes the ok flag and the decoded entries. A network
  or JSON parse error ends the tick in its `catch` before anything is written,
  like a not-ok response. A missing `diningHalls` makes `for ... in` run zero
  times, like an empty entry list.
- Hall fields other than a string `display_name` and an integer `availability`
  are not modelled. A missing field would be stored as NULL. The
  `availability INTEGER` column converts text that reads as a number (`"42"`
  to INTEGER 42, `"4.5"` to REAL); a fractional number is stored as REAL, and
  other text stays TEXT.
- The ok flag stands for the status code; the status itself is only logged.
- `setInterval`, the call at startup, and overlap between ticks are not
  modelled (timers and concurrency). A query reads one snapshot of the rows.
- Express routing, CORS, `app.listen` and all console logging are not
  modelled. So are query values that Express parses as arrays or objects
  (a repeated key).
- The directory and database-file bootstrap (lines 12-36) and the SQLite
  connection (lines 39-45) are not modelled: they are file-system I/O. The
  constructor models a table created empty. A database file copied in
  beforehand could already hold rows.
- The `timestamp` column is declared `DATETIME`, so SQLite gives it NUMERIC
  affinity. A bound that reads as a number (say `"5"`) would be compared as a
  number, and numbers sort before all text. The model compares every bound as
  text. This matches bounds written by `toISOString`.
- AUTOINCREMENT runs out at 2^63 - 1 (SQLITE_FULL). The model's ids are
  unbounded.
- `frontend/app.js` is not part of this model (DOM, charting, `fetch` and
  date conversion in the browser).
- One row per hall per tick is the intended behaviour. The code writes fewer
  rows when an upstream hall entry is `null`, and the model follows the code.
- Rows come back in table order. That is a choice of the model; the statement
  has no `ORDER BY`.
