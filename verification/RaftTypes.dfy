/** The values that travel through the Raft log. */
module RaftTypes {
  datatype LogId = LogId(term: nat, node: nat, index: nat)

  datatype Vote = Vote(term: nat, node: nat, committed: bool)

  /** A statement and the user whose database runs it; no user means the authentication database. */
  datatype Request = Request(sql: string, user: string)

  datatype Members = Members(voters: seq<set<nat>>, addresses: map<nat, string>)

  datatype Payload = Blank | Normal(request: Request) | Membership(members: Members)

  datatype Entry = Entry(id: LogId, payload: Payload)
}
