/**
  Clients of PeerTable that walk through concrete sequences of operations and
  check, from the method contracts alone, what the table then holds.
*/
module PeerDbScenarios {
  import opened PeerDb

  /** A first save into an empty table is read back with both timestamps
      taken from the same clock reading, created_at in seconds. */
  method FirstSave(t: int) {
    var db := new PeerTable(map[]);
    db.SavePeer("P1", ["/addr/1"], t);
    assert db.GetPeer("P1") == Some(Peer("P1", ["/addr/1"], t, EpochSeconds(t)));
    assert db.GetPeer("P2") == None;
  }

  /** A re-save replaces the addresses and last_seen, and created_at becomes
      the time of the second save. */
  method Resave(t1: int, t2: int)
    requires t1 + MsPerSecond <= t2
  {
    var db := new PeerTable(map[]);
    db.SavePeer("P1", ["/a"], t1);
    db.SavePeer("P1", ["/a", "/b"], t2);
    var p := db.GetPeer("P1");
    assert p == Some(Peer("P1", ["/a", "/b"], t2, EpochSeconds(t2)));
    assert p.value.createdAt != EpochSeconds(t1);
  }

  /** One hour's cleanup removes the peer seen two hours ago and keeps the one
      seen ten minutes ago and the one seen exactly an hour ago. */
  method HourlyCleanup(now: int) {
    var stored := map[
      "P1" := Row(["/a"], now - 2 * MsPerHour, 0),
      "P2" := Row(["/b"], now - 10 * 60 * MsPerSecond, 0),
      "P3" := Row(["/c"], now - MsPerHour, 0)];
    var db := new PeerTable(stored);
    var n := db.CleanOldPeersByHours(now);
    assert StaleIds(stored, now - MsPerHour) == {"P1"};
    assert n == 1;
    assert db.peers.Keys == {"P2", "P3"};
    var all := db.GetAllPeers();
    assert |all| == 2;
    assert all[0].peerId == "P2" && all[1].peerId == "P3";
  }

  /** An absent or empty set of connected peers keeps everyone. */
  method NoConnectedSet(stored: Table) {
    var db := new PeerTable(stored);
    var n := db.CleanDisconnectedPeers(None);
    assert n == 0 && db.peers == stored;
    n := db.CleanDisconnectedPeers(Some({}));
    assert n == 0 && db.peers == stored;
  }

  /** Only the connected peer is kept, and the two others are counted. */
  method DisconnectedCleanup(now: int) {
    var stored := map["P1" := Row(["/a"], now, 0), "P2" := Row(["/b"], now, 0), "P3" := Row(["/c"], now, 0)];
    var db := new PeerTable(stored);
    assert "P1" != "P2" && "P3" != "P2";
    assert OutsideIds(stored, {"P2"}) == {"P1", "P3"};
    var n := db.CleanDisconnectedPeers(Some({"P2"}));
    assert n == 2;
    assert db.peers.Keys == {"P2"};
    assert db.peers == map["P2" := Row(["/b"], now, 0)];
  }

  /** Refreshing an unknown peer inserts nothing; refreshing a known one moves
      only its last_seen. */
  method Refresh(t1: int, t2: int) {
    var db := new PeerTable(map[]);
    db.UpdateLastSeen("P1", t2);
    assert db.peers == map[];
    db.SavePeer("P1", ["/a"], t1);
    db.UpdateLastSeen("P1", t2);
    assert db.GetPeer("P1") == Some(Peer("P1", ["/a"], t2, EpochSeconds(t1)));
    db.DeletePeer("P1");
    assert db.GetPeer("P1") == None;
  }
}
