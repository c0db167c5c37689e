/** The three scenarios of src/tests.rs, replayed on a cluster: each method
    performs the same calls as the scenario and promises what it asserts. */
module Scenarios {
  import opened Types
  import opened Protocol
  import opened Raft
  import opened Helpers

  /** Nodes 0 and 1, linked to each other by `easy_connect!`. */
  function Pair(): seq<Node> {
    [FreshNode(Id(0)).(edges := [1]), FreshNode(Id(1)).(edges := [0])]
  }

  lemma PairMesh()
    ensures Mesh([FreshNode(Id(0)), FreshNode(Id(1))], [0, 1], 2) == Pair()
  {
    var list: seq<nat> := [0, 1];
    assert list[..1] == [0];
    assert Others(list, 0) == [1];
    assert Others(list, 1) == [0];
    var start := [FreshNode(Id(0)), FreshNode(Id(1))];
    var half := [FreshNode(Id(0)).(edges := [1]), FreshNode(Id(1))];
    assert Mesh(start, list, 1) == half;
    assert half[1].edges + Others(list, 1) == [0];
    assert Mesh(start, list, 2) == half[1 := half[1].(edges := [0])];
  }

  lemma PairElection()
    ensures CanTimeout(Pair(), 0)
    ensures var r := Timeout(Pair(), 0);
            && r.result == Ok
            && r.nodes[0].role == Leader
            && r.nodes[1].currentLeader == Some(Id(0)) && r.nodes[1].role == Follower
  {
    UnopposedFollowerWins(Pair(), 0);
    ElectionOwnState(Pair(), 0);
    WinnerIsFollowed(Pair(), 0);
  }

  /** `should_elect_new_leader_on_timeout`: of two linked nodes, the one with
      id 0 times out, wins, and the other follows it. */
  method ElectNewLeaderOnTimeout() returns (r: Outcome, a: Node, b: Node)
    ensures r == Ok
    ensures a.role == Leader
    ensures b.currentLeader == Some(Id(0)) && b.role == Follower
  {
    var c := new Cluster();
    var nodeA := c.NewNode(Id(0));
    var nodeB := c.NewNode(Id(1));
    assert c.nodes == [FreshNode(Id(0)), FreshNode(Id(1))];
    EasyConnect(c, [nodeA, nodeB]);
    PairMesh();
    assert c.nodes == Pair();
    PairElection();
    r := c.OnTimeout(nodeA);
    a := c.nodes[nodeA];
    b := c.nodes[nodeB];
  }

  /** Nodes 0, 1 and 2, each linked to the other two by `easy_connect!`. */
  function Trio(): seq<Node> {
    [FreshNode(Id(0)).(edges := [1, 2]), FreshNode(Id(1)).(edges := [0, 2]), FreshNode(Id(2)).(edges := [0, 1])]
  }

  lemma TrioMesh()
    ensures Mesh([FreshNode(Id(0)), FreshNode(Id(1)), FreshNode(Id(2))], [0, 1, 2], 3) == Trio()
  {
    var list: seq<nat> := [0, 1, 2];
    assert list[..1] == [0] && list[..2] == [0, 1];
    assert Others(list, 0) == [1, 2];
    assert Others(list, 1) == [0, 2];
    assert Others(list, 2) == [0, 1];
    var start := [FreshNode(Id(0)), FreshNode(Id(1)), FreshNode(Id(2))];
    var one := start[0 := start[0].(edges := [1, 2])];
    var two := one[1 := one[1].(edges := [0, 2])];
    assert Mesh(start, list, 1) == one by {
      assert start[0].edges + Others(list, 0) == [1, 2];
    }
    assert Mesh(start, list, 2) == two by {
      assert one[1].edges + Others(list, 1) == [0, 2];
    }
    assert two[2].edges + Others(list, 2) == [0, 1];
  }

  /** `Trio` after the scenario set node 0 to Leader and raised the timeout
      flags of nodes 1 and 2. */
  function Prepared(): seq<Node> {
    var t := Trio();
    [t[0].(role := Leader), t[1].(timeoutState := true), t[2].(timeoutState := true)]
  }

  /** Node 1 would win at term 1 on its own vote and node 2's: node 0 has
      the invalid id and refuses. */
  lemma PreparedWins()
    ensures CanTimeout(Prepared(), 1) && Prepared()[1].role == Follower
    ensures !VoteCounted(Prepared()[0], 1) && VoteCounted(Prepared()[2], 1)
    ensures Distinct(Prepared()[1].edges) && Wins(Prepared(), 1)
  {
    var p := Prepared();
    var edges: seq<nat> := [0, 2];
    assert p[1].edges == edges;
    var voters := Neighbours(p, edges);
    assert voters == [p[0], p[2]];
    assert voters[..1] == [p[0]];
    assert !VoteCounted(p[0], 1) && VoteCounted(p[2], 1);
    assert CountVotes(voters, 1) == 1;
    WinsIffMajority(p, 1);
  }

  /** The election node 1 wins: both neighbours then follow it, node 2 at
      the term it voted in. */
  lemma PreparedElection()
    ensures CanTimeout(Prepared(), 1)
    ensures var r := Timeout(Prepared(), 1);
            && r.result == Ok
            && r.nodes[0].currentLeader == Some(Id(1))
            && r.nodes[1].role == Leader
            && r.nodes[2].role == Follower && r.nodes[2].currentLeader == Some(Id(1))
            && r.nodes[2].term == 1 && r.nodes[2].edges == [0, 1]
  {
    var p := Prepared();
    PreparedWins();
    assert Timeout(p, 1) == Election(p, 1);
    WinnerIsFollowed(p, 1);
    WonElectionNeighbours(p, 1);
    assert p[1].edges[0] == 0 && p[1].edges[1] == 2;
    var asked := Asked(p, 1, 1);
    assert asked.term == 1 && asked.edges == [0, 1];
  }

  /** A Follower that knows leader `Id(1)` times out: it reports that leader,
      and neither its known leader nor anyone else's role or leader changes. */
  lemma KnownLeaderTimeout(m: seq<Node>)
    requires |m| == 3 && m[2].edges == [0, 1]
    requires m[2].role == Follower && m[2].term < U64_MAX && m[2].currentLeader == Some(Id(1))
    ensures CanTimeout(m, 2)
    ensures var r := Timeout(m, 2);
            && r.result == Err(AlreadyElected(Id(1)))
            && r.nodes[0].role == m[0].role && r.nodes[0].currentLeader == m[0].currentLeader
            && r.nodes[1].role == m[1].role && r.nodes[1].currentLeader == m[1].currentLeader
            && r.nodes[2].currentLeader == Some(Id(1))
  {
    FollowerWithKnownLeaderNeverWins(m, 2, Id(1));
    ElectionOwnState(m, 2);
    OnlyWinnerChangesAllegiance(m, 2, 0);
    OnlyWinnerChangesAllegiance(m, 2, 1);
  }

  /** `should_not_re_elect_if_already_elected_for_term`: node 1 wins; node 2,
      which now knows node 1 as leader, cannot be elected. */
  method NoReElectionIfAlreadyElected() returns (rb: Outcome, rc: Outcome, a: Node, b: Node, c: Node)
    ensures rb == Ok
    ensures rc == Err(AlreadyElected(Id(1)))
    ensures a.currentLeader == Some(Id(1))
    ensures b.role == Leader
    ensures c.currentLeader == Some(Id(1))
  {
    var cluster := new Cluster();
    var nodeA := cluster.NewNode(Id(0));
    var nodeB := cluster.NewNode(Id(1));
    var nodeC := cluster.NewNode(Id(2));
    assert cluster.nodes == [FreshNode(Id(0)), FreshNode(Id(1)), FreshNode(Id(2))];
    EasyConnect(cluster, [nodeA, nodeB, nodeC]);
    TrioMesh();
    cluster.nodes := cluster.nodes[nodeA := cluster.nodes[nodeA].(role := Leader)];
    cluster.nodes := cluster.nodes[nodeB := cluster.nodes[nodeB].(timeoutState := true)];
    cluster.nodes := cluster.nodes[nodeC := cluster.nodes[nodeC].(timeoutState := true)];
    assert cluster.nodes == Prepared();
    PreparedElection();
    rb := cluster.OnTimeout(nodeB);
    KnownLeaderTimeout(cluster.nodes);
    rc := cluster.OnTimeout(nodeC);
    a := cluster.nodes[nodeA];
    b := cluster.nodes[nodeB];
    c := cluster.nodes[nodeC];
  }

  /** `followers_should_replicate_leader_logs`: a node that knows leader
      `Id(0)` takes the entry of a heartbeat from it into its log. */
  method FollowersReplicateLeaderLogs() returns (r: Outcome, b: Node)
    ensures r == Ok
    ensures |b.logs| > 0 && b.logs[0] == Text("new log entry")
  {
    var cluster := new Cluster();
    var nodeB := cluster.NewNode(Id(1));
    cluster.nodes := cluster.nodes[nodeB := cluster.nodes[nodeB].(currentLeader := Some(Id(0)))];
    assert cluster.Valid();
    r := cluster.OnRcvMessage(nodeB, ReplicateOrHeartbeat(Id(0), Text("new log entry")));
    b := cluster.nodes[nodeB];
  }
}
