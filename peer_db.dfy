/**
  The peer record store: one SQLite table `peers`, keyed by peer id, whose rows
  hold the peer's addresses (a JSON-encoded array of strings), `last_seen` in
  epoch milliseconds and `created_at` in epoch seconds.

  The table is a finite map from peer id to `Row`; the PRIMARY KEY makes the id
  unique, which a map gives for free. Each SQL statement is one atomic map
  update, written as a function on maps (`Saved`, `Deleted`, `Touched`,
  `Pruned`, `KeptOnly`); the class `PeerTable` holds the table and its methods
  apply those functions. The clock (`Date.now()` and SQLite's 'now') is the
  parameter `nowMs`.
*/
module PeerDb {

  datatype Option<T> = None | Some(value: T)

  /** A stored row without its key. `addresses` is the decoded JSON array. */
  datatype Row = Row(addresses: seq<string>, lastSeen: int, createdAt: int)

  /** The object getPeer and getAllPeers hand back to callers. */
  datatype Peer = Peer(peerId: string, addresses: seq<string>, lastSeen: int, createdAt: int)

  type Table = map<string, Row>

  const MsPerSecond: int := 1000
  const MsPerHour: int := 60 * 60 * 1000
  /** The default of cleanOldPeersByHours' `hours` argument. */
  const DefaultHours: int := 1
  /** cleanOldPeers removes peers not seen for a day. */
  const OldPeerHours: int := 24

  /** strftime('%s', 'now'), the column default of created_at: whole seconds
      since the epoch, rounded down. */
  function EpochSeconds(nowMs: int): (s: int)
    ensures s * MsPerSecond <= nowMs < (s + 1) * MsPerSecond
  {
    nowMs / MsPerSecond
  }

  /** The cutoff `Date.now() - hours * 60 * 60 * 1000` of the age-based cleanups. */
  function HoursCutoff(nowMs: int, hours: int): (cutoff: int)
  {
    nowMs - hours * MsPerHour
  }

  /** The row mapping of getPeer and getAllPeers (JSON.parse undoes JSON.stringify). */
  function ToPeer(peerId: string, row: Row): (p: Peer)
  {
    Peer(peerId, row.addresses, row.lastSeen, row.createdAt)
  }

  // ---------------------------------------------------------------------------
  // The SQL statements, as functions on the table

  /** INSERT OR REPLACE INTO peers (peer_id, addresses, last_seen): any row with
      this id is deleted and a fresh one inserted; created_at is not supplied,
      so it takes the column default, the current time in seconds. */
  function Saved(m: Table, peerId: string, addresses: seq<string>, nowMs: int): (r: Table)
    ensures r.Keys == m.Keys + {peerId}
    ensures r[peerId].addresses == addresses && r[peerId].lastSeen == nowMs
    ensures r[peerId].createdAt * MsPerSecond <= nowMs < (r[peerId].createdAt + 1) * MsPerSecond
    ensures forall k :: k in m && k != peerId ==> r[k] == m[k]
  {
    m[peerId := Row(addresses, nowMs, EpochSeconds(nowMs))]
  }

  /** DELETE FROM peers WHERE peer_id = ? */
  function Deleted(m: Table, peerId: string): (r: Table)
    ensures peerId !in r
    ensures forall k :: k != peerId ==> (k in r <==> k in m)
    ensures forall k :: k in r ==> r[k] == m[k]
  {
    m - {peerId}
  }

  /** UPDATE peers SET last_seen = ? WHERE peer_id = ? */
  function Touched(m: Table, peerId: string, nowMs: int): (r: Table)
    ensures r.Keys == m.Keys
    ensures peerId in m ==> r[peerId] == Row(m[peerId].addresses, nowMs, m[peerId].createdAt)
    ensures forall k :: k in m && k != peerId ==> r[k] == m[k]
  {
    if peerId in m then m[peerId := m[peerId].(lastSeen := nowMs)] else m
  }

  /** DELETE FROM peers WHERE last_seen < ?: the rows that remain, those seen
      at or after the cutoff. */
  function Pruned(m: Table, cutoff: int): (r: Table)
    ensures forall k :: k in r <==> k in m && cutoff <= m[k].lastSeen
    ensures forall k :: k in r ==> r[k] == m[k]
  {
    map k | k in m && cutoff <= m[k].lastSeen :: m[k]
  }

  /** The ids DELETE FROM peers WHERE last_seen < ? removes: exactly the ids
      the cleanup does not keep, and as many as the rows it removes. */
  function StaleIds(m: Table, cutoff: int): (ids: set<string>)
    ensures ids <= m.Keys
    ensures ids == m.Keys - Pruned(m, cutoff).Keys
    ensures m - ids == Pruned(m, cutoff)
    ensures |ids| == |m| - |Pruned(m, cutoff)|
  {
    var ids := set k | k in m && m[k].lastSeen < cutoff;
    assert m - ids == Pruned(m, cutoff);
    RemovedKeysCount(m, ids);
    ids
  }

  /** DELETE FROM peers WHERE peer_id NOT IN (keep...): the rows that remain,
      those whose id is in the set. */
  function KeptOnly(m: Table, keep: set<string>): (r: Table)
    ensures forall k :: k in r <==> k in m && k in keep
    ensures forall k :: k in r ==> r[k] == m[k]
  {
    map k | k in m && k in keep :: m[k]
  }

  /** The ids DELETE FROM peers WHERE peer_id NOT IN (...) removes: exactly the
      ids the cleanup does not keep, and as many as the rows it removes. */
  function OutsideIds(m: Table, keep: set<string>): (ids: set<string>)
    ensures ids <= m.Keys
    ensures ids == m.Keys - KeptOnly(m, keep).Keys
    ensures m - ids == KeptOnly(m, keep)
    ensures |ids| == |m| - |KeptOnly(m, keep)|
  {
    var ids := set k | k in m && k !in keep;
    assert m - ids == KeptOnly(m, keep);
    RemovedKeysCount(m, ids);
    ids
  }

  /** Among the rows with ids in `ids`, the row of `k` is seen most recently. */
  predicate IsLatest(m: Table, ids: set<string>, k: string)
    requires ids <= m.Keys
  {
    k in ids && forall j :: j in ids ==> m[j].lastSeen <= m[k].lastSeen
  }

  // ---------------------------------------------------------------------------
  // Lemmas about the statements

  /** Deleting a set of existing keys removes exactly that many rows: the
      `changes` count of a DELETE. */
  lemma RemovedKeysCount(m: Table, gone: set<string>)
    requires gone <= m.Keys
    ensures |m - gone| == |m| - |gone|
  {
  }

  /** Every non-empty set of rows has a most recently seen one, the head of
      ORDER BY last_seen DESC. */
  lemma {:induction false} LatestExists(m: Table, ids: set<string>)
    requires ids <= m.Keys && ids != {}
    ensures exists k :: IsLatest(m, ids, k)
    decreases ids
  {
    var k :| k in ids;
    var rest := ids - {k};
    if rest == {} {
      assert ids == {k};
      assert IsLatest(m, ids, k);
    } else {
      LatestExists(m, rest);
      var k' :| IsLatest(m, rest, k');
      if m[k].lastSeen <= m[k'].lastSeen {
        assert IsLatest(m, ids, k');
      } else {
        assert IsLatest(m, ids, k);
      }
    }
  }

  /** Saving twice keeps only the second save: last write wins; and the
      created_at of an existing row is not kept by a save in another second. */
  lemma SaveOverwrites(m: Table, peerId: string, a1: seq<string>, t1: int, a2: seq<string>, t2: int)
    ensures Saved(Saved(m, peerId, a1, t1), peerId, a2, t2) == Saved(m, peerId, a2, t2)
    ensures peerId in m && m[peerId].createdAt != EpochSeconds(t2) ==>
              Saved(m, peerId, a2, t2)[peerId].createdAt != m[peerId].createdAt
  {
  }

  /** A saved row is gone after deleting it, and the save leaves no other trace. */
  lemma DeleteUndoesSave(m: Table, peerId: string, addresses: seq<string>, nowMs: int)
    ensures Deleted(Saved(m, peerId, addresses, nowMs), peerId) == Deleted(m, peerId)
    ensures peerId !in m ==> Deleted(Saved(m, peerId, addresses, nowMs), peerId) == m
  {
  }

  /** updateLastSeen of a missing id inserts nothing; of a present id it keeps
      the number of rows. */
  lemma TouchKeepsTable(m: Table, peerId: string, nowMs: int)
    ensures peerId !in m ==> Touched(m, peerId, nowMs) == m
    ensures |Touched(m, peerId, nowMs)| == |m|
  {
  }

  /** A second age-based cleanup with the same cutoff removes nothing. */
  lemma PruneIdempotent(m: Table, cutoff: int)
    ensures StaleIds(Pruned(m, cutoff), cutoff) == {}
    ensures Pruned(Pruned(m, cutoff), cutoff) == Pruned(m, cutoff)
  {
  }

  /** Two cleanups in a row are the one with the later cutoff; a later cutoff
      keeps a subset of the rows. */
  lemma PruneComposes(m: Table, c1: int, c2: int)
    requires c1 <= c2
    ensures Pruned(Pruned(m, c1), c2) == Pruned(m, c2)
    ensures Pruned(m, c2).Keys <= Pruned(m, c1).Keys
  {
  }

  /** A peer just saved or refreshed at `nowMs` survives any cleanup of a
      non-negative number of hours run at `nowMs`. */
  lemma FreshRowSurvivesPrune(m: Table, peerId: string, addresses: seq<string>, nowMs: int, hours: int)
    requires hours >= 0
    ensures peerId in Pruned(Saved(m, peerId, addresses, nowMs), HoursCutoff(nowMs, hours))
    ensures peerId in m ==> peerId in Pruned(Touched(m, peerId, nowMs), HoursCutoff(nowMs, hours))
  {
  }

  /** The NOT IN statement with an empty list would delete every row, which
      is why cleanDisconnectedPeers returns early on an empty set. */
  lemma EmptyKeepSetClears(m: Table)
    ensures KeptOnly(m, {}) == map[]
    ensures |OutsideIds(m, {})| == |m|
  {
  }

  /** Keeping only the connected ids twice is keeping them once; a table whose
      ids are all connected is left as it is. */
  lemma KeptOnlyIdempotent(m: Table, keep: set<string>)
    ensures KeptOnly(KeptOnly(m, keep), keep) == KeptOnly(m, keep)
    ensures m.Keys <= keep ==> KeptOnly(m, keep) == m
  {
  }

  // ---------------------------------------------------------------------------
  // The table

  /** dbOperations over the `peers` table. */
  class PeerTable {
    var peers: Table

    /** CREATE TABLE IF NOT EXISTS: opening the database keeps the rows already
        stored in it (none for a new file). */
    constructor (stored: Table)
      ensures peers == stored
    {
      peers := stored;
    }

    /** savePeer: insert or replace the row of `peerId`. */
    method SavePeer(peerId: string, addresses: seq<string>, nowMs: int)
      modifies this
      ensures peers == Saved(old(peers), peerId, addresses, nowMs)
    {
      peers := Saved(peers, peerId, addresses, nowMs);
    }

    /** getPeer: the row of `peerId`, or null when there is none. */
    function GetPeer(peerId: string): (r: Option<Peer>)
      reads this
      ensures r.None? <==> peerId !in peers
      ensures r.Some? ==> r.value.peerId == peerId
                          && Row(r.value.addresses, r.value.lastSeen, r.value.createdAt) == peers[peerId]
    {
      if peerId in peers then Some(ToPeer(peerId, peers[peerId])) else None
    }

    /** SELECT peer_id FROM peers ORDER BY last_seen DESC: every id once, most
        recently seen first. */
    method SelectIdsByLastSeen() returns (ids: seq<string>)
      ensures |ids| == |peers|
      ensures forall k :: k in ids <==> k in peers
      ensures forall i, j :: 0 <= i < j < |ids| ==> ids[i] != ids[j]
      ensures forall i, j :: 0 <= i < j < |ids| ==> peers[ids[j]].lastSeen <= peers[ids[i]].lastSeen
    {
      ids := [];
      var rest := peers.Keys;
      while rest != {}
        invariant rest <= peers.Keys
        invariant forall k :: k in ids <==> k in peers && k !in rest
        invariant forall i, j :: 0 <= i < j < |ids| ==> ids[i] != ids[j]
        invariant forall i, j :: 0 <= i < j < |ids| ==> peers[ids[j]].lastSeen <= peers[ids[i]].lastSeen
        invariant forall i, k :: 0 <= i < |ids| && k in rest ==> peers[k].lastSeen <= peers[ids[i]].lastSeen
        invariant |ids| + |rest| == |peers|
        decreases rest
      {
        LatestExists(peers, rest);
        var id :| IsLatest(peers, rest, id);
        ids := ids + [id];
        rest := rest - {id};
      }
    }

    /** getAllPeers: every row once, most recently seen first; the order of
        rows with equal last_seen is left open. */
    method GetAllPeers() returns (r: seq<Peer>)
      ensures |r| == |peers|
      ensures forall k :: k in peers <==> exists i :: 0 <= i < |r| && r[i].peerId == k
      ensures forall i :: 0 <= i < |r| ==> r[i].peerId in peers && r[i] == ToPeer(r[i].peerId, peers[r[i].peerId])
      ensures forall i, j :: 0 <= i < j < |r| ==> r[i].peerId != r[j].peerId
      ensures forall i, j :: 0 <= i < j < |r| ==> r[i].lastSeen >= r[j].lastSeen
    {
      var ids := SelectIdsByLastSeen();
      r := [];
      for n := 0 to |ids|
        invariant |r| == n
        invariant forall i :: 0 <= i < n ==> r[i] == ToPeer(ids[i], peers[ids[i]])
      {
        r := r + [ToPeer(ids[n], peers[ids[n]])];
      }
    }

    /** getAllPeerIds: every id once, in no particular order. */
    method GetAllPeerIds() returns (ids: seq<string>)
      ensures |ids| == |peers|
      ensures forall k :: k in ids <==> k in peers
      ensures forall i, j :: 0 <= i < j < |ids| ==> ids[i] != ids[j]
    {
      ids := [];
      var rest := peers.Keys;
      while rest != {}
        invariant rest <= peers.Keys
        invariant forall k :: k in ids <==> k in peers && k !in rest
        invariant forall i, j :: 0 <= i < j < |ids| ==> ids[i] != ids[j]
        invariant |ids| + |rest| == |peers|
        decreases rest
      {
        var id :| id in rest;
        ids := ids + [id];
        rest := rest - {id};
      }
    }

    /** deletePeer: remove the row of `peerId`, if any. */
    method DeletePeer(peerId: string)
      modifies this
      ensures peers == Deleted(old(peers), peerId)
    {
      peers := Deleted(peers, peerId);
    }

    /** updateLastSeen: refresh last_seen of an existing row; no row is inserted. */
    method UpdateLastSeen(peerId: string, nowMs: int)
      modifies this
      ensures peers == Touched(old(peers), peerId, nowMs)
    {
      peers := Touched(peers, peerId, nowMs);
    }

    /** The DELETE ... WHERE last_seen < cutoff shared by both age-based cleanups. */
    method DeleteSeenBefore(cutoff: int) returns (changes: nat)
      modifies this
      ensures peers == Pruned(old(peers), cutoff)
      ensures changes == |StaleIds(old(peers), cutoff)| == |old(peers)| - |peers|
    {
      var gone := StaleIds(peers, cutoff);
      changes := |gone|;
      peers := peers - gone;
    }

    /** cleanOldPeers: delete the rows not seen in the last 24 hours. */
    method CleanOldPeers(nowMs: int) returns (changes: nat)
      modifies this
      ensures peers == Pruned(old(peers), HoursCutoff(nowMs, OldPeerHours))
      ensures changes == |StaleIds(old(peers), HoursCutoff(nowMs, OldPeerHours))| == |old(peers)| - |peers|
    {
      changes := DeleteSeenBefore(HoursCutoff(nowMs, OldPeerHours));
    }

    /** cleanOldPeersByHours: delete the rows not seen in the last `hours` hours
        (one hour when the argument is left out). */
    method CleanOldPeersByHours(nowMs: int, hours: int := DefaultHours) returns (changes: nat)
      modifies this
      ensures peers == Pruned(old(peers), HoursCutoff(nowMs, hours))
      ensures changes == |StaleIds(old(peers), HoursCutoff(nowMs, hours))| == |old(peers)| - |peers|
    {
      changes := DeleteSeenBefore(HoursCutoff(nowMs, hours));
    }

    /** cleanDisconnectedPeers: with no set or an empty one, nothing happens;
        otherwise every row whose id is not in the set is deleted. */
    method CleanDisconnectedPeers(connectedPeerIds: Option<set<string>>) returns (changes: nat)
      modifies this
      ensures (connectedPeerIds.None? || connectedPeerIds.value == {}) ==>
                changes == 0 && peers == old(peers)
      ensures (connectedPeerIds.Some? && connectedPeerIds.value != {}) ==>
                peers == KeptOnly(old(peers), connectedPeerIds.value)
                && changes == |OutsideIds(old(peers), connectedPeerIds.value)| == |old(peers)| - |peers|
    {
      if connectedPeerIds.None? || connectedPeerIds.value == {} {
        return 0;
      }
      var gone := OutsideIds(peers, connectedPeerIds.value);
      changes := |gone|;
      peers := peers - gone;
    }
  }
}
