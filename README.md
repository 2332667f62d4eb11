# Peer record store

This project models the peer record store of a small libp2p chat node, `dbOperations` in
`src/db.js`. The store is a single SQLite table `peers` with one row per peer id. A row holds
the peer's addresses as a JSON array, `last_seen` in epoch milliseconds and `created_at` in
epoch seconds. The operations save, read, delete and refresh rows, and prune them by age or by a
set of connected peers.

The model is module `PeerDb` (`peer_db.dfy`):

- `Row` is a stored row and `Peer` is the object the getters return. The table is
  `map<string, Row>`, so the PRIMARY KEY's uniqueness holds by construction.
- Each SQL statement is a function on the table: `Saved`, `Deleted`, `Touched`, `Pruned` and
  `KeptOnly`. `StaleIds` and `OutsideIds` are the sets of ids the two kinds of DELETE remove.
  The contract of each function states which rows it keeps, removes or rewrites.
- Class `PeerTable` owns the table in its field `peers`. Each mutating method's `ensures` ties
  the new `peers` to one of those functions, applied to the old table. Each cleanup also returns
  the `changes` count.
- The getters only read `peers`. `GetPeer` is a function. `GetAllPeers` and `GetAllPeerIds` are
  methods, because SQL leaves some of their order open (ties on `last_seen`, and the order of the
  ids). Their contracts fix everything that is determined and leave the rest open.
- The clock (`Date.now()`, and SQLite's `'now'` in the `created_at` default) is the parameter
  `nowMs`. `created_at` is `nowMs / 1000` rounded down (`EpochSeconds`).
- JSON encoding of the addresses is taken as an identity round trip on `seq<string>`.

Module `PeerDbScenarios` (`peer_db_scenarios.dfy`) holds client methods. Each one runs a concrete
sequence of operations on a `PeerTable` and asserts, from the contracts alone, what it then
holds: a first save, a re-save, an hourly cleanup followed by a listing, the disconnected-peer
cleanup, and a refresh followed by a delete.

Three behaviours of the code are easy to miss:

- `savePeer` is an `INSERT OR REPLACE` that does not supply `created_at`. A re-save therefore
  writes a fresh row, and its `created_at` is the second of the re-save, not of the first save.
  `SaveOverwrites` and the `Resave` scenario state this.
- The age-based cleanups take their window in hours: `cleanOldPeersByHours` (any number,
  default 1) and `cleanOldPeers` (fixed at 24). The model takes `hours` as a whole number; see
  the `PeerDb.PeerTable.CleanOldPeersByHours` line under "## Left out".
- `created_at` is in seconds, while `last_seen` is in milliseconds.

## Model

| member | source | states |
|---|---|---|
| `PeerDb.EpochSeconds` | src/db.js:34 | the `created_at` default is the whole number of seconds at or before `nowMs`: `s*1000 <= nowMs < (s+1)*1000` |
| `PeerDb.Saved` | src/db.js:43-48 | INSERT OR REPLACE: the id is present afterwards with exactly the given addresses, `lastSeen == nowMs` and a `createdAt` in seconds of `nowMs`, whatever row it had before; no other id is added, removed or changed |
| `PeerDb.Deleted` | src/db.js:78-81 | the id is absent afterwards; every other id is present exactly when it was, with its row unchanged |
| `PeerDb.Touched` | src/db.js:84-87 | the key set is unchanged, so a missing id is not inserted; an existing row gets `lastSeen == nowMs` with its addresses and `createdAt` kept; other rows are unchanged |
| `PeerDb.StaleIds` | src/db.js:92-94 | the ids `last_seen < cutoff` deletes are existing ids, exactly those `Pruned` does not keep; deleting them yields `Pruned`, and their number is the number of rows it removes (the `changes` count) |
| `PeerDb.Pruned` | src/db.js:115-116 | exactly the rows with `cutoff <= lastSeen` remain, so a row seen at the cutoff is kept, and they remain unchanged |
| `PeerDb.OutsideIds` | src/db.js:105-109 | the ids `NOT IN (...)` deletes are existing ids, exactly those `KeptOnly` does not keep; deleting them yields `KeptOnly`, and their number is the number of rows it removes (the `changes` count) |
| `PeerDb.KeptOnly` | src/db.js:105-108 | exactly the rows whose id is in the set remain, unchanged |
| `PeerDb.RemovedKeysCount` | src/db.js:93-94 | a DELETE of a set of existing ids shrinks the table by the size of that set, which is the `changes` count |
| `PeerDb.LatestExists` | src/db.js:67 | every non-empty set of rows has a row seen no earlier than all the others, so ORDER BY last_seen DESC always has a head |
| `PeerDb.SaveOverwrites` | src/db.js:44-47 | saving twice equals saving only the second time (last write wins); a save of an existing id in another second than its stored `createdAt` replaces that `createdAt` |
| `PeerDb.DeleteUndoesSave` | src/db.js:78-81 | deleting a just-saved id gives the table that deleting it alone gives, and gives back the original table when the id was new |
| `PeerDb.TouchKeepsTable` | src/db.js:84-87 | refreshing a missing id leaves the table equal to what it was; refreshing never changes the number of rows |
| `PeerDb.PruneIdempotent` | src/db.js:113-118 | after a cleanup no row is older than the cutoff, so running it again with the same cutoff removes nothing |
| `PeerDb.PruneComposes` | src/db.js:113-118 | a cleanup followed by one with a later cutoff equals the later one alone; a later cutoff keeps a subset of the rows |
| `PeerDb.FreshRowSurvivesPrune` | src/db.js:113-118 | a row saved or refreshed at `nowMs` survives a cleanup of any non-negative number of hours run at `nowMs` |
| `PeerDb.EmptyKeepSetClears` | src/db.js:98-101 | `NOT IN` with an empty set would delete every row, which is the case the early return of cleanDisconnectedPeers avoids |
| `PeerDb.KeptOnlyIdempotent` | src/db.js:105-108 | keeping a set twice equals keeping it once; a table whose ids are all in the set is left as it is |
| `PeerDb.PeerTable.constructor` | src/db.js:29-38 | CREATE TABLE IF NOT EXISTS: the table starts with the rows already stored, and is empty for a new file |
| `PeerDb.PeerTable.SavePeer` | src/db.js:43-48 | the new table is `Saved` of the old one at `nowMs` |
| `PeerDb.PeerTable.GetPeer` | src/db.js:51-63 | null exactly when no row has the id; otherwise a peer with that id whose addresses, `lastSeen` and `createdAt` are that row's |
| `PeerDb.PeerTable.SelectIdsByLastSeen` | src/db.js:67-68 | every stored id exactly once, each row seen no later than every row before it |
| `PeerDb.PeerTable.GetAllPeers` | src/db.js:66-75 | as many peers as rows; each row's id appears once; each peer is its row mapped unchanged; `lastSeen` never increases along the list |
| `PeerDb.PeerTable.DeletePeer` | src/db.js:78-81 | the new table is `Deleted` of the old one |
| `PeerDb.PeerTable.UpdateLastSeen` | src/db.js:84-87 | the new table is `Touched` of the old one at `nowMs` |
| `PeerDb.PeerTable.DeleteSeenBefore` | src/db.js:115-117 | the new table is `Pruned` of the old one; the count returned is the number of stale ids, which is the number of rows removed |
| `PeerDb.PeerTable.CleanOldPeers` | src/db.js:90-95 | the rows with `lastSeen < nowMs - 24*3600000` are removed, the others are kept, and their number is returned |
| `PeerDb.PeerTable.CleanDisconnectedPeers` | src/db.js:98-110 | with no set or an empty set, returns 0 and changes nothing; otherwise the new table is `KeptOnly` of the old one, and the number of rows outside the set is returned |
| `PeerDb.PeerTable.CleanOldPeersByHours` | src/db.js:113-118 | `hours` defaults to 1; the rows with `lastSeen < nowMs - hours*3600000` are removed, the others are kept, and their number is returned |
| `PeerDb.PeerTable.GetAllPeerIds` | src/db.js:121-125 | every stored id exactly once, and nothing else |

## Left out

- Resolving the database path, creating its directory and opening the SQLite file
  (src/db.js:9-26): filesystem and environment I/O. The constructor instead takes the rows already
  stored.
- The SIGINT and SIGTERM handlers that close the database and exit (src/db.js:129-137): process
  signal plumbing.
- src/index.js and test-scalability.js are not part of this model. They hold the networking node,
  its event wiring, the console and a multi-process network test, with no store logic of their
  own.
- Address caching, connection tracking, peer discovery and scheduled reconciliation are not
  implemented in src/db.js, so there is nothing of them to model.
- JSON serialisation and the SQL engine: the addresses round-trip unchanged, and each statement is
  one atomic map update.
- Two clock readings: `savePeer` reads `Date.now()` while SQLite evaluates `'now'` for
  `created_at`. The model uses one reading, `nowMs`, for both.
- The idx_last_seen index (src/db.js:37): it changes speed, not results.
- PeerDb.PeerTable.CleanOldPeersByHours: `hours` is a whole number in the model, while the code
  accepts any JavaScript number. A fractional or NaN argument, and floating-point rounding of
  the cutoff, are not modelled. `DeleteSeenBefore` takes any integer cutoff, which covers every
  cutoff a fractional `hours` can give, since `last_seen` is an integer.
- Non-array address lists: `addresses` is always a `seq<string>`. `savePeer(id, null)` stores the
  text `"null"` and `getPeer` later returns `addresses: null`; `savePeer(id, undefined)` binds
  NULL to the NOT NULL column and throws. Neither is expressible in the model.
- NULL peer ids: `peer_id TEXT PRIMARY KEY` accepts NULL in SQLite, and NULL ids never conflict.
  So `savePeer(null, ...)` adds a new row on every call, `getPeer(null)` never finds one, and
  `NOT IN` never deletes one. The model's ids are strings, so none of this is captured.
- PeerDb.PeerTable.CleanDisconnectedPeers: the statement binds one parameter per id, so a set
  larger than SQLite's host-parameter limit makes `prepare` throw; the model always succeeds.
- PeerDb.PeerTable.CleanDisconnectedPeers: the argument is a set or absent; other falsy values and
  non-Set arguments with no `size` are not modelled.
