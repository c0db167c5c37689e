/** The nodes of src/lib.rs as they are updated in place. A `Cluster` holds
    every node in an arena; the handle the source shares (`Rc<RefCell<Node>>`)
    is a node's position in it, and a node's links are positions. Each method
    is proved to act exactly as the functions of module Protocol say, and to
    keep every link pointing at a node of the arena. */
module Raft {
  import opened Types
  import opened Protocol

  class Cluster {
    /** Every node, addressed by its handle. */
    var nodes: seq<Node>

    /** Every link of every node names a node of the arena. */
    ghost predicate Valid()
      reads this
    {
      forall i :: 0 <= i < |nodes| ==> ValidTargets(nodes, nodes[i].edges)
    }

    constructor ()
      ensures nodes == [] && Valid()
    {
      nodes := [];
    }

    /** `Node::new`: a new Follower at term 0 with no known leader, no links
        and an empty log; its handle is returned. */
    method NewNode(id: Id) returns (handle: nat)
      requires Valid()
      modifies this
      ensures handle == |old(nodes)| && nodes == old(nodes) + [FreshNode(id)]
      ensures Valid()
    {
      handle := |nodes|;
      nodes := nodes + [FreshNode(id)];
      assert forall i :: 0 <= i < handle ==> nodes[i] == old(nodes)[i];
    }

    /** `connect_nodes`: appends the handles `others`, in order, to the links
        of node `me`; nothing else changes. */
    method ConnectNodes(me: nat, others: seq<nat>)
      requires Valid() && me < |nodes| && ValidTargets(nodes, others)
      modifies this
      ensures nodes == old(nodes)[me := old(nodes)[me].(edges := old(nodes)[me].edges + others)]
      ensures Valid()
    {
      assert nodes[me].edges + others[..0] == nodes[me].edges;
      assert nodes[me := nodes[me]] == nodes;
      var i := 0;
      while i < |others|
        invariant 0 <= i <= |others|
        invariant nodes == old(nodes)[me := old(nodes)[me].(edges := old(nodes)[me].edges + others[..i])]
      {
        assert old(nodes)[me].edges + others[..i + 1] == old(nodes)[me].edges + others[..i] + [others[i]];
        nodes := nodes[me := nodes[me].(edges := nodes[me].edges + [others[i]])];
        i := i + 1;
      }
      assert others[..i] == others;
    }

    /** `on_rcv_message` on node `me`: acts exactly as `Protocol.Receive`. */
    method OnRcvMessage(me: nat, msg: Message) returns (r: Outcome)
      requires Valid() && me < |nodes|
      modifies this
      ensures nodes == old(nodes)[me := Receive(old(nodes)[me], msg).node]
      ensures r == Receive(old(nodes)[me], msg).result
      ensures Valid()
    {
      var n := nodes[me];
      r := Ok;
      match msg {
        case ReplicateOrHeartbeat(senderId, logEntry) =>
          n := n.(timeoutState := !n.timeoutState);
          n := n.(logs := n.logs + [logEntry]);
          n := n.(currentLeader := Some(senderId));
          n := n.(role := Follower);
        case RequestVotes(senderId, senderTerm) =>
          if senderTerm > n.term {
            n := n.(term := senderTerm);
            var canVote := n.id.value != INVALID_ID;
            if canVote {
              n := n.(logs := n.logs + [VoteCast(senderTerm, senderId, n.term)]);
            } else {
              n := n.(logs := n.logs + [VoteRejected(senderTerm, senderId, n.term)]);
              r := Err(NoQuorum);
            }
          } else if senderTerm < n.term {
            n := n.(logs := n.logs + [LowerTerm(senderId, n.term, senderTerm)]);
            r := Err(InvalidTerm);
          } else if senderTerm == 0 {
            r := Err(Offline);
          }
      }
      nodes := nodes[me := n];
    }

    /** `send_msg` (src/helpers.rs): delivers `msg` straight to the handler of
        node `target` and passes its result back. */
    method SendMsg(target: nat, msg: Message) returns (r: Outcome)
      requires Valid() && target < |nodes|
      modifies this
      ensures nodes == old(nodes)[target := Receive(old(nodes)[target], msg).node]
      ensures r == Receive(old(nodes)[target], msg).result
      ensures Valid()
    {
      r := OnRcvMessage(target, msg);
    }

    /** `on_timeout` on node `me`: acts exactly as `Protocol.Timeout`. */
    method OnTimeout(me: nat) returns (r: Outcome)
      requires Valid() && me < |nodes|
      requires nodes[me].role == Follower ==> me !in nodes[me].edges && nodes[me].term < U64_MAX
      modifies this
      ensures Step(nodes, r) == Timeout(old(nodes), me)
      ensures Valid()
    {
      if nodes[me].role == Leader {
        r := Err(AlreadyElected(nodes[me].id));
      } else if nodes[me].role == Follower {
        r := Elect(me);
      } else {
        r := Ok;
      }
    }

    /** The Follower branch of `on_timeout`: acts exactly as
        `Protocol.Election`. */
    method Elect(me: nat) returns (r: Outcome)
      requires Valid() && CanTimeout(nodes, me) && nodes[me].role == Follower
      modifies this
      ensures Step(nodes, r) == Election(old(nodes), me)
      ensures Valid()
    {
      nodes := nodes[me := nodes[me].(role := Candidate, term := nodes[me].term + 1)];
      var votesReceived := 1;
      var majority := (|nodes[me].edges| + 1) / 2 + 1;
      var granted := RequestVotesFrom(me);
      votesReceived := votesReceived + granted;
      r := Conclude(me, votesReceived, majority);
    }

    /** The end of `on_timeout` for a Follower: acts exactly as
        `Protocol.Verdict`. */
    method Conclude(me: nat, votesReceived: nat, majority: nat) returns (r: Outcome)
      requires Valid() && me < |nodes| && me !in nodes[me].edges
      modifies this
      ensures Step(nodes, r) == Verdict(old(nodes), me, votesReceived, majority)
      ensures Valid()
    {
      if nodes[me].currentLeader.Some? {
        r := Err(AlreadyElected(nodes[me].currentLeader.value));
      } else if votesReceived >= majority {
        nodes := nodes[me := nodes[me].(role := Leader, currentLeader := Some(nodes[me].id))];
        assert nodes == Crowned(old(nodes), me);
        AnnounceLeadership(me);
        r := Ok;
      } else {
        r := Ok;
      }
    }

    /** The first loop of `on_timeout`: asks every neighbour of `me`, in link
        order, for its vote at `me`'s term, and returns the Ok answers. */
    method RequestVotesFrom(me: nat) returns (granted: nat)
      requires Valid() && me < |nodes| && ValidTargets(nodes, nodes[me].edges) && me !in nodes[me].edges
      modifies this
      ensures Poll(nodes, granted) == Solicit(old(nodes), old(nodes)[me].edges, old(nodes)[me].term)
      ensures nodes[me] == old(nodes)[me]
      ensures Valid()
    {
      ghost var start := nodes;
      var edges := nodes[me].edges;
      granted := 0;
      var i := 0;
      while i < |edges|
        invariant 0 <= i <= |edges|
        invariant Valid() && |nodes| == |start|
        invariant nodes[me] == start[me]
        invariant Solicit(start, edges[..i], start[me].term) == Poll(nodes, granted)
      {
        assert edges[..i + 1][..i] == edges[..i];
        var nodeId := nodes[edges[i]].id;
        var message := RequestVotes(nodeId, nodes[me].term);
        var answer := SendMsg(edges[i], message);
        if answer.Ok? {
          granted := granted + 1;
        }
        i := i + 1;
      }
      assert edges[..i] == edges;
    }

    /** The second loop of `on_timeout`: tells every neighbour of `me`, in
        link order, that `me` leads at its term; the answers are ignored. */
    method AnnounceLeadership(me: nat)
      requires Valid() && me < |nodes| && ValidTargets(nodes, nodes[me].edges) && me !in nodes[me].edges
      modifies this
      ensures nodes == Announce(old(nodes), old(nodes)[me].edges, old(nodes)[me].id,
                                NewLeader(old(nodes)[me].id, old(nodes)[me].term))
      ensures Valid()
    {
      ghost var start := nodes;
      var edges := nodes[me].edges;
      var j := 0;
      while j < |edges|
        invariant 0 <= j <= |edges|
        invariant Valid() && |nodes| == |start|
        invariant nodes[me] == start[me]
        invariant nodes == Announce(start, edges[..j], start[me].id, NewLeader(start[me].id, start[me].term))
      {
        assert edges[..j + 1][..j] == edges[..j];
        var logEntry := NewLeader(nodes[me].id, nodes[me].term);
        var message := ReplicateOrHeartbeat(nodes[me].id, logEntry);
        var _ := SendMsg(edges[j], message);
        j := j + 1;
      }
      assert edges[..j] == edges;
    }
  }
}
