/** The peer state machine of src/lib.rs as pure functions on values. The
    nodes of a cluster live in an arena, a sequence indexed by position; a
    node's links are the positions of its neighbours, where the source holds
    shared handles. `Receive` is what one node does with one message
    (`on_rcv_message`); `Timeout` is what a timeout on one node does to the
    whole arena (`on_timeout`). The methods of `Raft.Cluster` are proved to
    act exactly as these functions say; the properties are proved here. */
module Protocol {
  import opened Types

  /** A voter whose own id is this value never grants a vote. */
  const INVALID_ID: u64 := 0

  /** A peer: its identity, role, term, the leader it knows of, its timeout
      flag, the positions of its neighbours and its log. */
  datatype Node = Node(
    id: Id,
    role: Role,
    term: u64,
    currentLeader: Option<Id>,
    timeoutState: bool,
    edges: seq<nat>,
    logs: seq<LogEntry>)

  /** A new peer: Follower at term 0, no known leader, no links, empty log. */
  function FreshNode(id: Id): Node {
    Node(id, Follower, 0, None, false, [], [])
  }

  /** The new state of a node that handled a message, and the handler's result. */
  datatype Reception = Reception(node: Node, result: Outcome)

  /** `b` is `a` with zero or more entries appended. */
  predicate Extends(a: seq<LogEntry>, b: seq<LogEntry>) {
    |a| <= |b| && a == b[..|a|]
  }

  lemma ExtendsTransitive(a: seq<LogEntry>, b: seq<LogEntry>, c: seq<LogEntry>)
    requires Extends(a, b) && Extends(b, c)
    ensures Extends(a, c)
  {
    assert c[..|a|] == c[..|b|][..|a|];
  }

  /** One node handling one message. A heartbeat is accepted whatever its
      term; a vote request is judged by comparing terms. */
  function Receive(n: Node, msg: Message): (r: Reception)
    // Whatever the message: identity and links stay, the term never
    // decreases and the log only grows, by at most one entry.
    ensures r.node.id == n.id && r.node.edges == n.edges
    ensures r.node.term >= n.term
    ensures Extends(n.logs, r.node.logs) && |r.node.logs| <= |n.logs| + 1
    // A heartbeat always succeeds: the receiver steps down to Follower under
    // the sender, flips its timeout flag and appends the entry, term unchanged.
    ensures msg.ReplicateOrHeartbeat? ==>
              && r.result == Ok
              && r.node.role == Follower
              && r.node.currentLeader == Some(msg.sender)
              && r.node.timeoutState == !n.timeoutState
              && r.node.logs == n.logs + [msg.entry]
              && r.node.term == n.term
    // A vote request never changes role, known leader or timeout flag.
    ensures msg.RequestVotes? ==>
              && r.node.role == n.role
              && r.node.currentLeader == n.currentLeader
              && r.node.timeoutState == n.timeoutState
    // From a higher term: adopt it and log the decision; grant unless the
    // receiver's own id is the invalid one.
    ensures msg.RequestVotes? && msg.senderTerm > n.term ==>
              && r.node.term == msg.senderTerm
              && (n.id.value != INVALID_ID ==>
                    r == Reception(r.node, Ok)
                    && r.node.logs == n.logs + [VoteCast(msg.senderTerm, msg.sender, msg.senderTerm)])
              && (n.id.value == INVALID_ID ==>
                    r == Reception(r.node, Err(NoQuorum))
                    && r.node.logs == n.logs + [VoteRejected(msg.senderTerm, msg.sender, msg.senderTerm)])
    // From a lower term: rejected and logged, term kept.
    ensures msg.RequestVotes? && msg.senderTerm < n.term ==>
              && r.node.term == n.term
              && r.node.logs == n.logs + [LowerTerm(msg.sender, n.term, msg.senderTerm)]
              && r.result == Err(InvalidTerm)
    // From the same term: nothing changes; Offline at term 0, Ok otherwise.
    ensures msg.RequestVotes? && msg.senderTerm == n.term ==>
              && r.node == n
              && r.result == (if n.term == 0 then Err(Offline) else Ok)
  {
    match msg
    case ReplicateOrHeartbeat(sender, entry) => Reception(Heartbeat(n, sender, entry), Ok)
    case RequestVotes(sender, senderTerm) => Vote(n, sender, senderTerm)
  }

  /** The heartbeat arm of the handler. */
  function Heartbeat(n: Node, sender: Id, entry: LogEntry): Node {
    n.(timeoutState := !n.timeoutState, logs := n.logs + [entry], currentLeader := Some(sender), role := Follower)
  }

  /** The vote-request arm of the handler. */
  function Vote(n: Node, sender: Id, senderTerm: u64): (r: Reception)
    ensures Advances(n, r.node)
    ensures r.node.role == n.role && r.node.currentLeader == n.currentLeader && r.node.timeoutState == n.timeoutState
  {
    if senderTerm > n.term then
      // the entry is formatted after the term was adopted
      if n.id.value != INVALID_ID then
        Reception(n.(term := senderTerm, logs := n.logs + [VoteCast(senderTerm, sender, senderTerm)]), Ok)
      else
        Reception(n.(term := senderTerm, logs := n.logs + [VoteRejected(senderTerm, sender, senderTerm)]), Err(NoQuorum))
    else if senderTerm < n.term then
      Reception(n.(logs := n.logs + [LowerTerm(sender, n.term, senderTerm)]), Err(InvalidTerm))
    else if senderTerm == 0 then
      Reception(n, Err(Offline))
    else
      Reception(n, Ok)
  }

  /** The state after handling `msgs` in order. */
  function ReceiveAll(n: Node, msgs: seq<Message>): Node
    decreases |msgs|
  {
    if msgs == [] then n else ReceiveAll(Receive(n, msgs[0]).node, msgs[1..])
  }

  /** Over any run of messages identity and links never change, the term
      never decreases, and the log only grows, by at most one entry per
      message. */
  lemma {:induction false} ReceiveAllMonotone(n: Node, msgs: seq<Message>)
    ensures Advances(n, ReceiveAll(n, msgs))
    ensures |ReceiveAll(n, msgs).logs| <= |n.logs| + |msgs|
    decreases |msgs|
  {
    if msgs != [] {
      var next := Receive(n, msgs[0]).node;
      ReceiveAllMonotone(next, msgs[1..]);
      AdvancesTransitive(n, next, ReceiveAll(next, msgs[1..]));
    }
  }

  /** Once a vote request at term `t` has been handled, a second one at the
      same term (from anyone) changes nothing and is answered Ok unless `t`
      is 0: the node does not remember whom it voted for. */
  lemma RepeatedVoteRequestChangesNothing(n: Node, x: Id, y: Id, t: u64)
    requires t >= n.term
    ensures var after := Receive(n, RequestVotes(x, t)).node;
            Receive(after, RequestVotes(y, t)) == Reception(after, if t == 0 then Err(Offline) else Ok)
  {
  }

  /** `b` is a later state of the node `a`: same identity and links, a term
      at least as high, and `a`'s log as a prefix of its own. */
  predicate Advances(a: Node, b: Node) {
    b.id == a.id && b.edges == a.edges && b.term >= a.term && Extends(a.logs, b.logs)
  }

  lemma AdvancesTransitive(a: Node, b: Node, c: Node)
    requires Advances(a, b) && Advances(b, c)
    ensures Advances(a, c)
  {
    ExtendsTransitive(a.logs, b.logs, c.logs);
  }

  // ----- votes -------------------------------------------------------------

  /** Whether a node in state `n`, asked for its vote at term `t`, answers Ok.
      The request carries the voter's own id. Any Ok counts as a vote, so a
      voter already at term `t` counts too. */
  predicate VoteCounted(n: Node, t: u64) {
    (t > n.term && n.id.value != INVALID_ID) || (t == n.term && t != 0)
  }

  /** `VoteCounted` is exactly an Ok answer from the message handler. */
  lemma VoteCountedIsOkAnswer(n: Node, t: u64)
    ensures VoteCounted(n, t) <==> Receive(n, RequestVotes(n.id, t)).result == Ok
  {
  }

  /** The votes granted at term `t` by voters in states `ns`. */
  function CountVotes(ns: seq<Node>, t: u64): (c: nat)
    ensures c <= |ns|
  {
    if ns == [] then 0
    else CountVotes(ns[..|ns| - 1], t) + (if VoteCounted(ns[|ns| - 1], t) then 1 else 0)
  }

  /** The positions of the voters whose answer counts. */
  function CountedPositions(ns: seq<Node>, t: u64): set<nat> {
    set k: nat | k < |ns| && VoteCounted(ns[k], t)
  }

  /** The votes counted are exactly the voters whose answer counts. */
  lemma {:induction false} CountVotesIsCardinality(ns: seq<Node>, t: u64)
    ensures CountVotes(ns, t) == |CountedPositions(ns, t)|
  {
    if ns != [] {
      var last := |ns| - 1;
      var prefix := ns[..last];
      CountVotesIsCardinality(prefix, t);
      var extra: set<nat> := if VoteCounted(ns[last], t) then {last} else {};
      forall k | k in CountedPositions(ns, t)
        ensures k in CountedPositions(prefix, t) + extra
      {
        if k < last { assert prefix[k] == ns[k]; }
      }
      forall k | k in CountedPositions(prefix, t) + extra
        ensures k in CountedPositions(ns, t)
      {
        if k < last { assert prefix[k] == ns[k]; }
      }
      assert CountedPositions(ns, t) == CountedPositions(prefix, t) + extra;
      assert last !in CountedPositions(prefix, t);
    }
  }

  /** The votes needed to win with `neighbours` links: `(len + 1) / 2 + 1`. */
  function Majority(neighbours: nat): (m: nat)
    // strictly more than half of the cluster, self included ...
    ensures 2 * m > neighbours + 1
    // ... and the least such count
    ensures 2 * (m - 1) <= neighbours + 1
  {
    (neighbours + 1) / 2 + 1
  }

  /** The members of a cluster of `n + 1` nodes, numbered 0 to n. */
  function Members(n: nat): (m: set<nat>)
    ensures forall x: int :: x in m <==> 0 <= x <= n
    ensures |m| == n + 1
  {
    if n == 0 then {0} else Members(n - 1) + {n}
  }

  /** Two groups of voters that each reach the majority of a cluster of
      `n + 1` members share a member. This is a property of the threshold
      only: it does not make leaders unique per term, because a voter asked
      twice at one term answers Ok both times
      (`RepeatedVoteRequestChangesNothing`). */
  lemma QuorumsOverlap(n: nat, a: set<nat>, b: set<nat>)
    requires a <= Members(n) && b <= Members(n)
    requires |a| >= Majority(n) && |b| >= Majority(n)
    ensures a * b != {}
  {
    SubsetCardinality(a + b, Members(n));
    assert |a + b| + |a * b| == |a| + |b|;
  }

  lemma {:induction false} SubsetCardinality(small: set<nat>, big: set<nat>)
    requires small <= big
    ensures |small| <= |big|
  {
    if small != {} {
      var x :| x in small;
      SubsetCardinality(small - {x}, big - {x});
    }
  }

  // ----- messages to many nodes ---------------------------------------------

  /** Every position in `targets` names a node of the arena. */
  predicate ValidTargets(nodes: seq<Node>, targets: seq<nat>) {
    forall k :: 0 <= k < |targets| ==> targets[k] < |nodes|
  }

  /** No position occurs twice. */
  predicate Distinct(xs: seq<nat>) {
    forall a, b :: 0 <= a < b < |xs| ==> xs[a] != xs[b]
  }

  /** The nodes at the positions `targets`, in order. */
  function Neighbours(nodes: seq<Node>, targets: seq<nat>): (ns: seq<Node>)
    requires ValidTargets(nodes, targets)
    ensures |ns| == |targets|
    ensures forall k :: 0 <= k < |targets| ==> ns[k] == nodes[targets[k]]
  {
    seq(|targets|, k requires 0 <= k < |targets| => nodes[targets[k]])
  }

  /** The arena after the vote requests, and the Ok answers counted. */
  datatype Poll = Poll(nodes: seq<Node>, votes: nat)

  /** The targets, in order, each asked for its vote at term `t` by a request
      naming itself; every Ok answer counts. */
  function Solicit(nodes: seq<Node>, targets: seq<nat>, t: u64): (p: Poll)
    requires ValidTargets(nodes, targets)
    ensures |p.nodes| == |nodes|
    ensures p.votes <= |targets|
    decreases |targets|
  {
    if targets == [] then Poll(nodes, 0)
    else
      var prefix := targets[..|targets| - 1];
      var j := targets[|targets| - 1];
      var p := Solicit(nodes, prefix, t);
      var answer := Vote(p.nodes[j], p.nodes[j].id, t);
      Poll(p.nodes[j := answer.node], p.votes + if answer.result == Ok then 1 else 0)
  }

  /** The targets, in order, each told by a heartbeat from `leader` carrying
      `entry`; the answers are ignored. */
  function Announce(nodes: seq<Node>, targets: seq<nat>, leader: Id, entry: LogEntry): (r: seq<Node>)
    requires ValidTargets(nodes, targets)
    ensures |r| == |nodes|
    decreases |targets|
  {
    if targets == [] then nodes
    else
      var j := targets[|targets| - 1];
      var before := Announce(nodes, targets[..|targets| - 1], leader, entry);
      before[j := Heartbeat(before[j], leader, entry)]
  }

  /** A node that is not a target is left as it was by the vote requests. */
  lemma {:induction false} SolicitElsewhere(nodes: seq<Node>, targets: seq<nat>, t: u64, i: nat)
    requires ValidTargets(nodes, targets) && i < |nodes| && i !in targets
    ensures Solicit(nodes, targets, t).nodes[i] == nodes[i]
    decreases |targets|
  {
    if targets != [] {
      var prefix := targets[..|targets| - 1];
      assert i !in prefix;
      SolicitElsewhere(nodes, prefix, t, i);
    }
  }

  /** ... and by the heartbeats. */
  lemma {:induction false} AnnounceElsewhere(nodes: seq<Node>, targets: seq<nat>, leader: Id, entry: LogEntry, i: nat)
    requires ValidTargets(nodes, targets) && i < |nodes| && i !in targets
    ensures Announce(nodes, targets, leader, entry)[i] == nodes[i]
    decreases |targets|
  {
    if targets != [] {
      var prefix := targets[..|targets| - 1];
      assert i !in prefix;
      AnnounceElsewhere(nodes, prefix, leader, entry, i);
    }
  }

  /** The vote requests only advance a node, and never change its role, known
      leader or timeout flag. */
  lemma {:induction false} SolicitAdvances(nodes: seq<Node>, targets: seq<nat>, t: u64, i: nat)
    requires ValidTargets(nodes, targets) && i < |nodes|
    ensures var after := Solicit(nodes, targets, t).nodes[i];
            && Advances(nodes[i], after)
            && after.role == nodes[i].role
            && after.currentLeader == nodes[i].currentLeader
            && after.timeoutState == nodes[i].timeoutState
    decreases |targets|
  {
    if targets != [] {
      var prefix := targets[..|targets| - 1];
      var p := Solicit(nodes, prefix, t);
      SolicitAdvances(nodes, prefix, t, i);
      if i == targets[|targets| - 1] {
        AdvancesTransitive(nodes[i], p.nodes[i], Solicit(nodes, targets, t).nodes[i]);
      }
    }
  }

  /** The heartbeats only advance a node. */
  lemma {:induction false} AnnounceAdvances(nodes: seq<Node>, targets: seq<nat>, leader: Id, entry: LogEntry, i: nat)
    requires ValidTargets(nodes, targets) && i < |nodes|
    ensures Advances(nodes[i], Announce(nodes, targets, leader, entry)[i])
    decreases |targets|
  {
    if targets != [] {
      var prefix := targets[..|targets| - 1];
      var before := Announce(nodes, prefix, leader, entry);
      AnnounceAdvances(nodes, prefix, leader, entry, i);
      if i == targets[|targets| - 1] {
        AdvancesTransitive(nodes[i], before[i], Announce(nodes, targets, leader, entry)[i]);
      }
    }
  }

  /** With no target named twice, each target is asked exactly once, from its
      original state. */
  lemma {:induction false} SolicitDistinct(nodes: seq<Node>, targets: seq<nat>, t: u64)
    requires ValidTargets(nodes, targets) && Distinct(targets)
    ensures forall k :: 0 <= k < |targets| ==>
              Solicit(nodes, targets, t).nodes[targets[k]]
                == Vote(nodes[targets[k]], nodes[targets[k]].id, t).node
    decreases |targets|
  {
    if targets != [] {
      var last := |targets| - 1;
      var prefix := targets[..last];
      var j := targets[last];
      SolicitDistinct(nodes, prefix, t);
      SolicitElsewhere(nodes, prefix, t, j);
      var after := Solicit(nodes, targets, t).nodes;
      forall k | 0 <= k < |targets|
        ensures after[targets[k]] == Vote(nodes[targets[k]], nodes[targets[k]].id, t).node
      {
        if k < last {
          assert prefix[k] == targets[k];
        }
      }
    }
  }

  /** With no target named twice, the votes counted are exactly those the
      targets' original states grant. */
  lemma {:induction false} SolicitDistinctVotes(nodes: seq<Node>, targets: seq<nat>, t: u64)
    requires ValidTargets(nodes, targets) && Distinct(targets)
    ensures Solicit(nodes, targets, t).votes == CountVotes(Neighbours(nodes, targets), t)
    decreases |targets|
  {
    if targets != [] {
      var last := |targets| - 1;
      var prefix := targets[..last];
      var j := targets[last];
      SolicitDistinctVotes(nodes, prefix, t);
      SolicitElsewhere(nodes, prefix, t, j);
      assert Neighbours(nodes, targets)[..last] == Neighbours(nodes, prefix);
      VoteCountedIsOkAnswer(nodes[j], t);
    }
  }

  /** When every target grants its vote at a term `t` other than 0, all of
      them are counted, even a target named twice: the second request finds
      it at term `t` already. */
  lemma {:induction false} SolicitAllGranted(nodes: seq<Node>, targets: seq<nat>, t: u64)
    requires ValidTargets(nodes, targets) && t != 0
    requires forall k :: 0 <= k < |targets| ==> VoteCounted(nodes[targets[k]], t)
    ensures Solicit(nodes, targets, t).votes == |targets|
    ensures forall i :: 0 <= i < |nodes| && VoteCounted(nodes[i], t) ==>
              VoteCounted(Solicit(nodes, targets, t).nodes[i], t)
    decreases |targets|
  {
    if targets != [] {
      var prefix := targets[..|targets| - 1];
      var j := targets[|targets| - 1];
      assert forall k :: 0 <= k < |prefix| ==> prefix[k] == targets[k];
      SolicitAllGranted(nodes, prefix, t);
      var p := Solicit(nodes, prefix, t);
      VoteCountedIsOkAnswer(p.nodes[j], t);
    }
  }

  /** Every target of the heartbeats ends up a Follower of `leader` with
      `entry` as its last entry. */
  lemma {:induction false} AnnounceFollowed(nodes: seq<Node>, targets: seq<nat>, leader: Id, entry: LogEntry)
    requires ValidTargets(nodes, targets)
    ensures forall k :: 0 <= k < |targets| ==>
              Follows(Announce(nodes, targets, leader, entry)[targets[k]], leader, entry)
    decreases |targets|
  {
    if targets != [] {
      var last := |targets| - 1;
      var prefix := targets[..last];
      var j := targets[last];
      AnnounceFollowed(nodes, prefix, leader, entry);
      var before := Announce(nodes, prefix, leader, entry);
      var after := Announce(nodes, targets, leader, entry);
      forall k | 0 <= k < |targets|
        ensures Follows(after[targets[k]], leader, entry)
      {
        if targets[k] != j {
          assert prefix[k] == targets[k];
          assert after[targets[k]] == before[targets[k]];
        }
      }
    }
  }

  /** With no target named twice, each target of the heartbeats handles
      exactly one, from its original state. */
  lemma {:induction false} AnnounceDistinct(nodes: seq<Node>, targets: seq<nat>, leader: Id, entry: LogEntry)
    requires ValidTargets(nodes, targets) && Distinct(targets)
    ensures forall k :: 0 <= k < |targets| ==>
              Announce(nodes, targets, leader, entry)[targets[k]]
                == Heartbeat(nodes[targets[k]], leader, entry)
    decreases |targets|
  {
    if targets != [] {
      var last := |targets| - 1;
      var prefix := targets[..last];
      var j := targets[last];
      AnnounceDistinct(nodes, prefix, leader, entry);
      AnnounceElsewhere(nodes, prefix, leader, entry, j);
      var after := Announce(nodes, targets, leader, entry);
      forall k | 0 <= k < |targets|
        ensures after[targets[k]] == Heartbeat(nodes[targets[k]], leader, entry)
      {
        if k < last {
          assert prefix[k] == targets[k];
        }
      }
    }
  }

  /** `n` is a Follower of `leader` whose last entry is `entry`. */
  predicate Follows(n: Node, leader: Id, entry: LogEntry) {
    n.role == Follower && n.currentLeader == Some(leader) && |n.logs| > 0 && n.logs[|n.logs| - 1] == entry
  }

  // ----- timeout ------------------------------------------------------------

  /** The arena after a timeout, and the timeout's result. */
  datatype Step = Step(nodes: seq<Node>, result: Outcome)

  /** What a timeout on node `me` demands. A Follower links only to nodes of
      the arena and never to itself (the handle of the timed-out node is
      already borrowed), and its term has room for one more. */
  predicate CanTimeout(nodes: seq<Node>, me: nat) {
    && me < |nodes|
    && (nodes[me].role == Follower ==>
          && ValidTargets(nodes, nodes[me].edges)
          && me !in nodes[me].edges
          && nodes[me].term < U64_MAX)
  }

  /** A timeout on node `me`: a Leader refuses, a Candidate ignores it, a
      Follower runs an election. */
  function Timeout(nodes: seq<Node>, me: nat): (r: Step)
    requires CanTimeout(nodes, me)
    ensures |r.nodes| == |nodes|
    ensures nodes[me].role == Leader ==> r == Step(nodes, Err(AlreadyElected(nodes[me].id)))
    ensures nodes[me].role == Candidate ==> r == Step(nodes, Ok)
  {
    if nodes[me].role == Leader then Step(nodes, Err(AlreadyElected(nodes[me].id)))
    else if nodes[me].role == Follower then Election(nodes, me)
    else Step(nodes, Ok)
  }

  /** A Follower's election at the next term: it becomes Candidate and asks
      every neighbour for its vote in link order; `Verdict` then decides on
      its own vote plus every Ok answer. */
  function Election(nodes: seq<Node>, me: nat): (r: Step)
    requires CanTimeout(nodes, me) && nodes[me].role == Follower
    ensures |r.nodes| == |nodes|
  {
    var s := nodes[me];
    var poll := Solicit(Candidacy(nodes, me), s.edges, s.term + 1);
    SolicitElsewhere(Candidacy(nodes, me), s.edges, s.term + 1, me);
    Verdict(poll.nodes, me, 1 + poll.votes, Majority(|s.edges|))
  }

  /** The arena once Follower `me` has become Candidate at the next term. */
  function Candidacy(nodes: seq<Node>, me: nat): seq<Node>
    requires CanTimeout(nodes, me) && nodes[me].role == Follower
  {
    nodes[me := nodes[me].(role := Candidate, term := nodes[me].term + 1)]
  }

  /** The arena once node `me` has made itself Leader. */
  function Crowned(nodes: seq<Node>, me: nat): seq<Node>
    requires me < |nodes|
  {
    nodes[me := nodes[me].(role := Leader, currentLeader := Some(nodes[me].id))]
  }

  /** The end of an election, read from the candidate's state as the vote
      requests left it: if it knows a leader it reports that leader;
      otherwise, with `votes` reaching `majority`, it becomes Leader of
      itself and announces that to every neighbour in link order. */
  function Verdict(nodes: seq<Node>, me: nat, votes: nat, majority: nat): (r: Step)
    requires me < |nodes| && ValidTargets(nodes, nodes[me].edges)
    ensures |r.nodes| == |nodes|
  {
    var s := nodes[me];
    if s.currentLeader.Some? then
      Step(nodes, Err(AlreadyElected(s.currentLeader.value)))
    else if votes >= majority then
      Step(Announce(Crowned(nodes, me), s.edges, s.id, NewLeader(s.id, s.term)), Ok)
    else
      Step(nodes, Ok)
  }

  /** Whether the election of Follower `me` is won. */
  predicate Wins(nodes: seq<Node>, me: nat)
    requires CanTimeout(nodes, me) && nodes[me].role == Follower
  {
    var s := nodes[me];
    && s.currentLeader == None
    && 1 + Solicit(Candidacy(nodes, me), s.edges, s.term + 1).votes >= Majority(|s.edges|)
  }

  /** The election spelled out: the vote requests leave the candidate alone,
      and what follows depends only on the leader it knew and on `Wins`. */
  lemma ElectionCases(nodes: seq<Node>, me: nat)
    requires CanTimeout(nodes, me) && nodes[me].role == Follower
    ensures var s := nodes[me];
            var poll := Solicit(Candidacy(nodes, me), s.edges, s.term + 1);
            && poll.nodes[me] == Candidacy(nodes, me)[me]
            && Election(nodes, me)
                 == if s.currentLeader.Some? then Step(poll.nodes, Err(AlreadyElected(s.currentLeader.value)))
                    else if Wins(nodes, me) then
                      Step(Announce(Crowned(poll.nodes, me), s.edges, s.id, NewLeader(s.id, s.term + 1)), Ok)
                    else Step(poll.nodes, Ok)
  {
    var s := nodes[me];
    SolicitElsewhere(Candidacy(nodes, me), s.edges, s.term + 1, me);
  }

  /** The timed-out Follower moves to the next term, keeping identity, links,
      log and timeout flag. It ends Leader of itself if it wins, Candidate with
      its old known leader otherwise. The result is AlreadyElected naming the
      leader it knew of, Ok if it knew none. */
  lemma ElectionOwnState(nodes: seq<Node>, me: nat)
    requires CanTimeout(nodes, me) && nodes[me].role == Follower
    ensures var s := nodes[me];
            var r := Election(nodes, me);
            && r.nodes[me] == s.(term := s.term + 1,
                                 role := if Wins(nodes, me) then Leader else Candidate,
                                 currentLeader := if Wins(nodes, me) then Some(s.id) else s.currentLeader)
            && r.result == (if s.currentLeader.Some? then Err(AlreadyElected(s.currentLeader.value)) else Ok)
  {
    var s := nodes[me];
    ElectionCases(nodes, me);
    if Wins(nodes, me) {
      var poll := Solicit(Candidacy(nodes, me), s.edges, s.term + 1);
      AnnounceElsewhere(Crowned(poll.nodes, me), s.edges, s.id, NewLeader(s.id, s.term + 1), me);
    }
  }

  /** With no neighbour linked twice, a Follower wins exactly when it knew no
      leader and its own vote plus the votes its neighbours' states grant at
      the next term reach the majority. */
  lemma WinsIffMajority(nodes: seq<Node>, me: nat)
    requires CanTimeout(nodes, me) && nodes[me].role == Follower
    requires Distinct(nodes[me].edges)
    ensures var s := nodes[me];
            Wins(nodes, me) <==>
              && s.currentLeader == None
              && 1 + CountVotes(Neighbours(nodes, s.edges), s.term + 1) >= Majority(|s.edges|)
  {
    var s := nodes[me];
    SolicitDistinctVotes(Candidacy(nodes, me), s.edges, s.term + 1);
    assert Neighbours(Candidacy(nodes, me), s.edges) == Neighbours(nodes, s.edges);
  }

  /** After a won election every neighbour follows the winner with the entry
      announcing it as its last. */
  lemma WinnerIsFollowed(nodes: seq<Node>, me: nat)
    requires CanTimeout(nodes, me) && nodes[me].role == Follower && Wins(nodes, me)
    ensures var s := nodes[me];
            var r := Election(nodes, me);
            && r.result == Ok
            && r.nodes[me].role == Leader
            && forall k :: 0 <= k < |s.edges| ==>
                 Follows(r.nodes[s.edges[k]], s.id, NewLeader(s.id, s.term + 1))
  {
    var s := nodes[me];
    var poll := Solicit(Candidacy(nodes, me), s.edges, s.term + 1);
    ElectionCases(nodes, me);
    ElectionOwnState(nodes, me);
    AnnounceFollowed(Crowned(poll.nodes, me), s.edges, s.id, NewLeader(s.id, s.term + 1));
  }

  /** With no neighbour linked twice, a lost election leaves each neighbour
      in the state the vote request left it in ... */
  lemma LostElectionNeighbours(nodes: seq<Node>, me: nat)
    requires CanTimeout(nodes, me) && nodes[me].role == Follower && Distinct(nodes[me].edges)
    requires !Wins(nodes, me)
    ensures forall k :: 0 <= k < |nodes[me].edges| ==> Election(nodes, me).nodes[nodes[me].edges[k]] == Asked(nodes, me, k)
  {
    ElectionCases(nodes, me);
    PollNeighbours(nodes, me);
  }

  /** ... and a won election adds the announcing heartbeat. */
  lemma WonElectionNeighbours(nodes: seq<Node>, me: nat)
    requires CanTimeout(nodes, me) && nodes[me].role == Follower && Distinct(nodes[me].edges)
    requires Wins(nodes, me)
    ensures var s := nodes[me];
            forall k :: 0 <= k < |s.edges| ==>
              Election(nodes, me).nodes[s.edges[k]] == Heartbeat(Asked(nodes, me, k), s.id, NewLeader(s.id, s.term + 1))
  {
    var s := nodes[me];
    var poll := Solicit(Candidacy(nodes, me), s.edges, s.term + 1);
    var crowned := Crowned(poll.nodes, me);
    ElectionCases(nodes, me);
    PollNeighbours(nodes, me);
    AnnounceDistinct(crowned, s.edges, s.id, NewLeader(s.id, s.term + 1));
  }

  /** Neighbour `k` of Follower `me` once asked for its vote. */
  function Asked(nodes: seq<Node>, me: nat, k: nat): Node
    requires CanTimeout(nodes, me) && nodes[me].role == Follower && k < |nodes[me].edges|
  {
    var n := nodes[nodes[me].edges[k]];
    Vote(n, n.id, nodes[me].term + 1).node
  }

  lemma PollNeighbours(nodes: seq<Node>, me: nat)
    requires CanTimeout(nodes, me) && nodes[me].role == Follower && Distinct(nodes[me].edges)
    ensures var s := nodes[me];
            forall k :: 0 <= k < |s.edges| ==>
              Solicit(Candidacy(nodes, me), s.edges, s.term + 1).nodes[s.edges[k]] == Asked(nodes, me, k)
  {
    var s := nodes[me];
    var candidacy := Candidacy(nodes, me);
    SolicitDistinct(candidacy, s.edges, s.term + 1);
    forall k | 0 <= k < |s.edges|
      ensures candidacy[s.edges[k]] == nodes[s.edges[k]]
    {
    }
  }

  /** A timeout only advances every node of the arena (the timed-out one
      included): identities and links never change, terms never decrease,
      logs only grow. */
  lemma TimeoutAdvances(nodes: seq<Node>, me: nat, i: nat)
    requires CanTimeout(nodes, me) && i < |nodes|
    ensures Advances(nodes[i], Timeout(nodes, me).nodes[i])
  {
    if nodes[me].role == Follower {
      if i == me {
        ElectionOwnState(nodes, me);
      } else {
        ElectionAdvancesOthers(nodes, me, i);
      }
    }
  }

  lemma ElectionAdvancesOthers(nodes: seq<Node>, me: nat, i: nat)
    requires CanTimeout(nodes, me) && nodes[me].role == Follower && i < |nodes| && i != me
    ensures Advances(nodes[i], Election(nodes, me).nodes[i])
  {
    var s := nodes[me];
    var poll := Solicit(Candidacy(nodes, me), s.edges, s.term + 1);
    ElectionCases(nodes, me);
    SolicitAdvances(Candidacy(nodes, me), s.edges, s.term + 1, i);
    if s.currentLeader.None? && Wins(nodes, me) {
      var crowned := Crowned(poll.nodes, me);
      AnnounceAdvances(crowned, s.edges, s.id, NewLeader(s.id, s.term + 1), i);
      AdvancesTransitive(nodes[i], crowned[i], Election(nodes, me).nodes[i]);
    }
  }

  /** A timeout touches only the timed-out node and its neighbours. */
  lemma TimeoutElsewhere(nodes: seq<Node>, me: nat, i: nat)
    requires CanTimeout(nodes, me) && i < |nodes| && i != me && i !in nodes[me].edges
    ensures Timeout(nodes, me).nodes[i] == nodes[i]
  {
    var s := nodes[me];
    if s.role == Follower {
      var poll := Solicit(Candidacy(nodes, me), s.edges, s.term + 1);
      ElectionCases(nodes, me);
      SolicitElsewhere(Candidacy(nodes, me), s.edges, s.term + 1, i);
      if s.currentLeader.None? && Wins(nodes, me) {
        AnnounceElsewhere(Crowned(poll.nodes, me), s.edges, s.id, NewLeader(s.id, s.term + 1), i);
      }
    }
  }

  /** Only a won election changes another node's role or known leader: vote
      requests leave both alone. */
  lemma OnlyWinnerChangesAllegiance(nodes: seq<Node>, me: nat, i: nat)
    requires CanTimeout(nodes, me) && i < |nodes| && i != me
    requires nodes[me].role == Follower ==> !Wins(nodes, me)
    ensures Timeout(nodes, me).nodes[i].role == nodes[i].role
    ensures Timeout(nodes, me).nodes[i].currentLeader == nodes[i].currentLeader
  {
    var s := nodes[me];
    if s.role == Follower {
      ElectionCases(nodes, me);
      SolicitAdvances(Candidacy(nodes, me), s.edges, s.term + 1, i);
    }
  }

  /** A Follower that knows no leader, whose neighbours all sit at a term no
      higher than its own and all have valid ids, wins the election. */
  lemma UnopposedFollowerWins(nodes: seq<Node>, me: nat)
    requires CanTimeout(nodes, me) && nodes[me].role == Follower && nodes[me].currentLeader == None
    requires forall k :: 0 <= k < |nodes[me].edges| ==>
               var n := nodes[nodes[me].edges[k]];
               n.term <= nodes[me].term && n.id.value != INVALID_ID
    ensures Timeout(nodes, me).nodes[me].role == Leader
    ensures Timeout(nodes, me).result == Ok
  {
    var s := nodes[me];
    var candidacy := Candidacy(nodes, me);
    assert forall k :: 0 <= k < |s.edges| ==> candidacy[s.edges[k]] == nodes[s.edges[k]];
    SolicitAllGranted(candidacy, s.edges, s.term + 1);
    ElectionOwnState(nodes, me);
  }

  /** A Follower that has ever recorded a leader can never win: it stays
      Candidate and reports that leader. */
  lemma FollowerWithKnownLeaderNeverWins(nodes: seq<Node>, me: nat, l: Id)
    requires CanTimeout(nodes, me) && nodes[me].role == Follower && nodes[me].currentLeader == Some(l)
    ensures Timeout(nodes, me).nodes[me].role == Candidate
    ensures Timeout(nodes, me).result == Err(AlreadyElected(l))
  {
    ElectionOwnState(nodes, me);
  }
}
