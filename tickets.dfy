/**
 * The records the help desk keeps (the `Ticket` and `Comment` tables) and
 * lookup by primary key.
 */
module Tickets {
  import opened Wrappers

  /** A naive UTC `datetime`, as microseconds since the Unix epoch. */
  type Timestamp = int

  const MicrosPerSecond: int := 1_000_000
  const MicrosPerHour: int := 3600 * MicrosPerSecond
  const MicrosPerDay: int := 24 * MicrosPerHour

  /** From a bound on `x * c` against `y * c` to one on `x` against `y`. */
  lemma ScaleDown(x: int, y: int, c: int)
    requires c > 0
    ensures x * c < y * c ==> x < y
    ensures x * c <= y * c ==> x <= y
  {
    if x >= y { assert x * c - y * c == (x - y) * c; }
    if x > y { assert x * c - y * c == (x - y) * c; }
  }

  /**
   * One row of the ticket table. `priority` and `status` are the strings the
   * forms submit ("P1".."P4"; "Open", "In Progress", ...), kept as strings
   * because the code compares them as strings and has a fallback for unknown
   * priorities.
   */
  datatype Ticket = Ticket(
    id: nat,
    requesterName: string,
    requesterEmail: string,
    category: string,
    priority: string,
    description: string,
    status: string,
    assigneeId: Option<int>,
    firstResponseDueAt: Option<Timestamp>,
    firstResponseMetAt: Option<Timestamp>,
    createdAt: Timestamp)

  /** One row of the comment table: a public reply or an internal note. */
  datatype Comment = Comment(
    ticketId: nat,
    authorId: Option<int>,
    visibility: string,
    body: string,
    createdAt: Timestamp)

  /** Primary keys are unique in the store. */
  ghost predicate UniqueIds(ts: seq<Ticket>) {
    forall i, j :: 0 <= i < |ts| && 0 <= j < |ts| && ts[i].id == ts[j].id ==> i == j
  }

  /** `Ticket.query.get(id)`: the position of the ticket with that key, if any. */
  function FindTicket(ts: seq<Ticket>, id: int): (r: Option<nat>)
    ensures r.Some? ==> r.value < |ts| && ts[r.value].id == id
    ensures r.None? <==> forall k :: 0 <= k < |ts| ==> ts[k].id != id
  {
    if ts == [] then None
    else if ts[0].id == id then Some(0)
    else match FindTicket(ts[1..], id)
      case None => None
      case Some(k) => Some(k + 1)
  }

  /** With unique keys the lookup finds every ticket of the store under its own id. */
  lemma FindTicketOfMember(ts: seq<Ticket>, k: nat)
    requires UniqueIds(ts) && k < |ts|
    ensures FindTicket(ts, ts[k].id) == Some(k)
  {
  }
}
