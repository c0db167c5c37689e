# naive-raft: the peer state machine in Dafny

naive-raft is a small leader-election playground in Rust. Each peer (`Node`) has an identity,
a role (Follower, Candidate or Leader), a term, the leader it knows of, a timeout flag, links
to other peers and a log. Two entry points drive it:

- `on_timeout`: a Leader refuses with `AlreadyElected`, and a Candidate does nothing. A
  Follower becomes Candidate at the next term and asks every linked peer for its vote. It
  then either reports a leader it already knew of, or takes the lead on a majority and
  announces itself to every peer with a heartbeat.
- `on_rcv_message`: a heartbeat is always accepted. A vote request is judged by comparing
  terms.

The `easy_connect!` macro links a group of peers pairwise. `send_msg` delivers a message
straight to a peer's handler.

The model is split into these modules:

- `Types` (types.dfy): identities, roles, log entries, messages, errors and the `Result`
  returned by both entry points.
- `Format` (format.dfy): the text of the log entries a peer writes about its own decisions.
  The Debug form of `u64` and `Id` is included. Decimal printing, and the text of every
  entry a node writes about its own decisions, are proved injective.
- `Protocol` (protocol.dfy): the behaviour as pure functions on values.
  - `Receive` is one peer handling one message.
  - `Timeout` is what a timeout on one peer does to the whole cluster.
  - All the properties are proved about these functions.
- `Raft` (cluster.dfy): `Cluster` is the peers as they are updated in place. The peers live
  in an arena (`nodes: seq<Node>`), and a shared handle (`Rc<RefCell<Node>>`) is a
  position in it. Each method mirrors the source statement by statement and is proved to act
  exactly as its `Protocol` function.
- `Helpers` (helpers.dfy): the `easy_connect!` macro with its two nested loops, and what it
  leaves behind.
- `Scenarios` (scenarios.dfy): the three unit tests of src/tests.rs replayed on the
  methods. Their assertions are proved as postconditions.

Points where the code behaves in a way a reader may not expect; the model follows the code:

- A vote request at term 0 fails with `Offline` only when the receiver is also at term 0.
  Against a higher local term it fails with `InvalidTerm`.
- A vote request carries the id of the peer asked, not of the candidate (src/lib.rs:76-77).
  So the log entry a voter writes names itself.
- Any `Ok` answer counts as a vote. That includes a voter already at the candidate's term,
  which answers `Ok` without voting.
- In the three-peer test, peer `Id(0)` holds the reserved invalid id and refuses to vote.
  Peer `Id(1)` wins on its own vote and the vote of `Id(2)` (two of three), not on both
  others' votes.

## Model

| member | source | states |
|---|---|---|
| Format.Decimal | src/lib.rs:130-150 | the Debug text of a number: non-empty, all decimal digits, no leading zero |
| Format.DecimalRoundTrip | src/lib.rs:130-150 | reading the printed digits back gives the number, so different terms and ids print differently |
| Format.VoteCastTextInjective | src/lib.rs:130-134 | two vote-grant texts agree only when sender term, sender and term agree |
| Format.VoteRejectedTextInjective | src/lib.rs:137-141 | two vote-rejection texts agree only when sender term, sender and term agree |
| Format.CastNeverReadsRejected | src/lib.rs:130-141 | a vote-grant text never equals a vote-rejection text |
| Format.LowerTermTextInjective | src/lib.rs:146-151 | two ignored-request texts agree only when sender, term and sender term agree |
| Format.NewLeaderTextInjective | src/lib.rs:95-99 | two new-leader texts agree only when leader and term agree |
| Format.RenderInjective | src/lib.rs:95-150 | entries a node writes about its own decisions are equal exactly when their texts are, so comparing them as values is comparing the source's strings |
| Protocol.Receive | src/lib.rs:109-160 | one message handled, every branch: a heartbeat is accepted (Follower of the sender, flag flipped, entry appended, term kept). For a vote request from a higher term, the term is adopted and the vote is granted and logged unless the receiver's id is 0 (then rejected and logged, `NoQuorum`). From a lower term it is logged and fails with `InvalidTerm`. At the same term nothing changes, with `Offline` at term 0 and `Ok` otherwise. Always: id and links kept, term never lower, log only extended, by at most one entry |
| Protocol.Vote | src/lib.rs:122-156 | the vote-request arm only advances the node (same id and links, term not lower, log extended) and never touches role, known leader or timeout flag |
| Protocol.ReceiveAllMonotone | src/lib.rs:109-160 | over any run of messages a node keeps id and links, its term never decreases, and its log only grows, by at most one entry per message |
| Protocol.RepeatedVoteRequestChangesNothing | src/lib.rs:122-156 | a second vote request at the same term, from anyone, changes nothing and is answered `Ok` (or `Offline` at term 0): the peer keeps no record of whom it voted for |
| Protocol.VoteCountedIsOkAnswer | src/lib.rs:75-81 | the vote-counting predicate holds exactly when the handler answers the request `Ok` |
| Protocol.CountVotes | src/lib.rs:75-81 | never more votes than voters asked |
| Protocol.CountVotesIsCardinality | src/lib.rs:75-81 | the votes counted equal the number of voters whose answer is `Ok` |
| Protocol.Majority | src/lib.rs:71-72 | `(len + 1) / 2 + 1` is strictly more than half of the cluster (self included), and the least such count |
| Protocol.QuorumsOverlap | src/lib.rs:71-72 | two groups that both reach the majority of the same cluster share a member; a property of the threshold only, since a voter asked twice at one term answers `Ok` twice (`Protocol.RepeatedVoteRequestChangesNothing`) |
| Protocol.Solicit | src/lib.rs:75-81 | the vote requests keep the cluster's size and grant at most one vote per request |
| Protocol.Announce | src/lib.rs:94-102 | the announcing heartbeats keep the cluster's size |
| Protocol.SolicitElsewhere | src/lib.rs:75-81 | a peer that is not asked is left as it was |
| Protocol.AnnounceElsewhere | src/lib.rs:94-102 | a peer that is not linked is not touched by the announcement |
| Protocol.SolicitAdvances | src/lib.rs:75-81 | the vote requests only advance every peer, and never change its role, known leader or timeout flag |
| Protocol.AnnounceAdvances | src/lib.rs:94-102 | the announcement only advances every peer |
| Protocol.SolicitDistinct | src/lib.rs:75-81 | with no peer linked twice, each peer is asked exactly once, from its original state |
| Protocol.SolicitDistinctVotes | src/lib.rs:75-81 | with no peer linked twice, the votes counted are exactly those the peers' original states grant |
| Protocol.SolicitAllGranted | src/lib.rs:75-81 | when every asked peer would grant, every request is counted, even for a peer linked twice |
| Protocol.AnnounceFollowed | src/lib.rs:94-102 | every linked peer ends as a Follower of the new leader, with the announcement as its last log entry |
| Protocol.AnnounceDistinct | src/lib.rs:94-102 | with no peer linked twice, each linked peer handles exactly one heartbeat, from its original state |
| Protocol.Timeout | src/lib.rs:61-107 | a Leader fails with `AlreadyElected` naming itself and a Candidate succeeds, neither changing anything; the cluster keeps its size |
| Protocol.Election | src/lib.rs:64-103 | the cluster keeps its size; its outcome is stated by the lemmas below |
| Protocol.Verdict | src/lib.rs:83-103 | the cluster keeps its size; its cases are stated by `Protocol.ElectionCases` |
| Protocol.ElectionCases | src/lib.rs:64-103 | vote requests leave the candidate alone. If it knew a leader, the result is `AlreadyElected` with no announcement. If it wins, it is crowned and announces itself. Otherwise the result is `Ok` |
| Protocol.ElectionOwnState | src/lib.rs:64-103 | the Follower moves to the next term with id, links, log and flag kept. It ends Leader of itself if it wins, otherwise Candidate keeping its known leader. The result is `AlreadyElected` with the known leader, or `Ok` if there is none |
| Protocol.WinsIffMajority | src/lib.rs:70-90 | with no peer linked twice, the election is won exactly when no leader was known and own vote plus granted votes reach the majority |
| Protocol.WinnerIsFollowed | src/lib.rs:90-106 | after a won election the winner is Leader, the result is `Ok`, and every linked peer follows it with the announcement as its last entry |
| Protocol.LostElectionNeighbours | src/lib.rs:75-86 | with no peer linked twice, a lost election leaves each linked peer exactly as the vote request left it |
| Protocol.WonElectionNeighbours | src/lib.rs:75-102 | with no peer linked twice, after a won election each linked peer has handled one vote request and then the announcement |
| Protocol.PollNeighbours | src/lib.rs:75-81 | with no peer linked twice, each linked peer of the candidate is left exactly as its single vote request leaves it |
| Protocol.TimeoutAdvances | src/lib.rs:61-107 | a timeout only advances every peer: ids and links never change, terms never decrease, logs only grow |
| Protocol.ElectionAdvancesOthers | src/lib.rs:64-103 | an election only advances every peer other than the candidate |
| Protocol.TimeoutElsewhere | src/lib.rs:61-107 | a timeout touches only the timed-out peer and the peers it links to |
| Protocol.OnlyWinnerChangesAllegiance | src/lib.rs:61-107 | unless the election is won, no other peer's role or known leader changes |
| Protocol.UnopposedFollowerWins | src/lib.rs:64-106 | a Follower with no known leader, whose linked peers all have valid ids and terms no higher than its own, becomes Leader with result `Ok` |
| Protocol.FollowerWithKnownLeaderNeverWins | src/lib.rs:83-86 | a Follower that knows a leader never wins: it stays Candidate and fails with `AlreadyElected` naming that leader |
| Raft.Cluster.NewNode | src/lib.rs:41-51 | a new Follower at term 0 with no leader, no links and an empty log is added, and its handle is returned |
| Raft.Cluster.ConnectNodes | src/lib.rs:55-59 | the given handles are appended, in order, to the links of one peer, and nothing else changes |
| Raft.Cluster.OnRcvMessage | src/lib.rs:109-160 | the peer's new state and the result are exactly those of `Protocol.Receive`; no other peer changes |
| Raft.Cluster.SendMsg | src/helpers.rs:6-11 | delivery is exactly the target's handler |
| Raft.Cluster.OnTimeout | src/lib.rs:61-107 | the new cluster and the result are exactly those of `Protocol.Timeout`, and every link still names a peer |
| Raft.Cluster.Elect | src/lib.rs:64-103 | the Follower branch acts exactly as `Protocol.Election` |
| Raft.Cluster.Conclude | src/lib.rs:83-103 | the end of the Follower branch acts exactly as `Protocol.Verdict` |
| Raft.Cluster.RequestVotesFrom | src/lib.rs:74-81 | the vote loop leaves the cluster and the vote count exactly as `Protocol.Solicit` says, with the candidate untouched |
| Raft.Cluster.AnnounceLeadership | src/lib.rs:94-102 | the announcement loop leaves the cluster exactly as `Protocol.Announce` says |
| Helpers.Others | src/helpers.rs:19-24 | the listed peers other than the given one: a peer is in the result exactly when it is listed and is not the given one |
| Helpers.Mesh | src/helpers.rs:13-28 | the cluster keeps its size |
| Helpers.CollectOthers | src/helpers.rs:19-24 | the inner loop collects exactly `Helpers.Others` |
| Helpers.EasyConnect | src/helpers.rs:13-28 | the two loops leave the cluster exactly as `Helpers.Mesh` over the whole list, with every link naming a peer |
| Helpers.MeshNoSelfLinks | src/helpers.rs:18-25 | the macro never links a peer to itself, whatever the list |
| Helpers.MeshLinksEveryPair | src/helpers.rs:18-25 | every listed peer is linked to every other listed peer, and unlisted peers are left alone |
| Helpers.MeshDistinct | src/helpers.rs:18-25 | with no peer listed twice, each listed peer gains exactly the other listed peers, in list order |
| Scenarios.PairMesh | src/tests.rs:5-8 | two new peers connected by the macro link to each other |
| Scenarios.PairElection | src/tests.rs:10-14 | peer `Id(0)` wins its timeout, and `Id(1)` follows it |
| Scenarios.ElectNewLeaderOnTimeout | src/tests.rs:3-15 | `should_elect_new_leader_on_timeout` replayed on the methods: every assertion of the test holds |
| Scenarios.TrioMesh | src/tests.rs:19-23 | three new peers connected by the macro each link to the other two |
| Scenarios.PreparedWins | src/tests.rs:25-28 | after the test's direct assignments, `Id(1)` reaches the majority: `Id(2)` grants and `Id(0)` refuses |
| Scenarios.PreparedElection | src/tests.rs:28-34 | `Id(1)`'s timeout succeeds. It becomes Leader, and both other peers then know it as leader |
| Scenarios.KnownLeaderTimeout | src/tests.rs:29-35 | a Follower that knows `Id(1)` as leader fails its timeout with `AlreadyElected(Id(1))`, and no other peer's role or known leader changes |
| Scenarios.NoReElectionIfAlreadyElected | src/tests.rs:17-36 | `should_not_re_elect_if_already_elected_for_term` replayed on the methods: every assertion of the test holds |
| Scenarios.FollowersReplicateLeaderLogs | src/tests.rs:38-52 | `followers_should_replicate_leader_logs` replayed on the methods: the heartbeat succeeds and its entry is the first log entry |

## Left out

- Shared ownership and runtime borrow checking (`Rc<RefCell<Node>>`, `borrow_mut`) are
  replaced by positions in an arena. The model cannot show two handles aliasing one peer
  other than by equal positions. There is no concurrency in the source.
- The `RaftNode` trait (src/lib.rs:28-38) is not kept as an interface, so its methods are
  methods of `Raft.Cluster`. `send_msg` is generic over the trait but is modelled for peers
  only.
- Logging through the `log` crate (src/lib.rs:3) is not modelled, because it is unused.
  Neither is the derived `Debug` of `Node`.
- Log entries are datatype values, not strings. `Format.Render` gives their exact text, and
  `Format.RenderInjective` shows that the entries a node writes about its own decisions
  compare as their texts do. A `Text` entry whose string coincides with such a text is
  equal to it in the source but not in the model.
- Raft.Cluster.OnTimeout: requires a Follower's term to be below `u64::MAX`. The source's
  `self.term += 1` panics or wraps there, and the model does not follow it.
- Raft.Cluster.OnTimeout: requires a Follower not to link to itself. In the source that
  would borrow the same `RefCell` twice and panic. The macro never creates such a link
  (`Helpers.MeshNoSelfLinks`).
- Protocol.Timeout: has the same two requirements as `Raft.Cluster.OnTimeout`.
- The tests assign fields directly (`role = Leader`, `timeout_state = true`,
  `current_leader = Some(..)`). In the scenarios these become updates of the arena.
