/** The vocabulary of the peer state machine: identities, roles, log entries,
    messages and the error taxonomy (src/types.rs), plus the `Result<(), Error>`
    that both entry points return. Equality on every type here is Dafny's
    structural datatype equality, which is what the derived `PartialEq`
    implementations of the source give. */
module Types {

  /** Rust's `u64`. */
  newtype u64 = x: int | 0 <= x <= 0xFFFF_FFFF_FFFF_FFFF

  const U64_MAX: u64 := 0xFFFF_FFFF_FFFF_FFFF

  /** The identity of a node: a copyable wrapper around a `u64`. */
  datatype Id = Id(value: u64)

  /** A node is in exactly one of these roles. */
  datatype Role = Follower | Leader | Candidate

  /** An entry of a node's log. In the source every entry is a piece of text;
      an entry that a node writes about its own decisions is kept here as the
      values it is formatted from, and `Format.Render` produces its text. */
  datatype LogEntry =
    | Text(text: string)
      // "[logterm: T] cast vote for Id(n) at term U"
    | VoteCast(senderTerm: u64, sender: Id, term: u64)
      // "[logterm: T] rejected vote for Id(n) at term U"
    | VoteRejected(senderTerm: u64, sender: Id, term: u64)
      // "ignored a message with lower term from Id(n) with term T and sender term S"
    | LowerTerm(sender: Id, term: u64, senderTerm: u64)
      // "new leader Id(n) at term T"
    | NewLeader(leader: Id, term: u64)

  /** Heartbeats are sent by a leader, vote requests by a candidate. */
  datatype Message =
    | ReplicateOrHeartbeat(sender: Id, entry: LogEntry)
    | RequestVotes(sender: Id, senderTerm: u64)

  datatype Error =
    | Offline
    | InvalidTerm
    | AlreadyElected(leader: Id)
    | NoQuorum

  /** `Result<(), Error>`. */
  datatype Outcome = Ok | Err(error: Error)

  datatype Option<T> = None | Some(value: T)
}
