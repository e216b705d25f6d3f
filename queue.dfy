/**
 * The agent queue (`agent_queue` in app/auth.py) and its CSV export
 * (`agent_export_csv`): both narrow the tickets by a selector and a search
 * term in the same way and order them newest first; the export then writes
 * one row of eleven values per ticket.
 */
module Queue {
  import opened Wrappers
  import opened Text
  import opened Seqs
  import opened Tickets
  import opened Sla

  /** The selectors that narrow by exact priority. */
  const PrioritySelectors: set<string> := {"P1", "P2", "P3", "P4"}

  /**
   * The first narrowing step: `"unassigned"`, `"mine"` for the agent
   * `userId`, one of `"P1"`..`"P4"`, or anything else (`"all"` is the
   * default) for no narrowing.
   */
  predicate Selected(t: Ticket, selector: string, userId: int): (b: bool)
    ensures selector == "unassigned" ==> (b <==> t.assigneeId.None?)
    ensures selector == "mine" ==> (b <==> t.assigneeId == Some(userId))
    ensures selector in PrioritySelectors ==> (b <==> t.priority == selector)
    ensures selector !in PrioritySelectors + {"unassigned", "mine"} ==> b
  {
    if selector == "unassigned" then t.assigneeId.None?
    else if selector == "mine" then t.assigneeId == Some(userId)
    else if selector in PrioritySelectors then t.priority == selector
    else true
  }

  /**
   * The second narrowing step: the term occurs, ignoring case, in one of four
   * fields. The empty term matches every ticket; a term longer than all four
   * fields matches none.
   */
  predicate MatchesTerm(t: Ticket, term: string): (b: bool)
    ensures term == [] ==> b
    ensures (&& |term| > |t.requesterName| && |term| > |t.requesterEmail|
             && |term| > |t.description| && |term| > |t.category|) ==> !b
  {
    ContainsBounds(Lower(t.requesterName), Lower(term));
    ContainsBounds(Lower(t.requesterEmail), Lower(term));
    ContainsBounds(Lower(t.description), Lower(term));
    ContainsBounds(Lower(t.category), Lower(term));
    || ContainsIgnoringCase(t.requesterName, term)
    || ContainsIgnoringCase(t.requesterEmail, term)
    || ContainsIgnoringCase(t.description, term)
    || ContainsIgnoringCase(t.category, term)
  }

  /** The search ignores case on the term's side too. */
  lemma MatchesTermIgnoresCase(t: Ticket, term: string)
    ensures MatchesTerm(t, Lower(term)) == MatchesTerm(t, term)
  {
    LowerIdempotent(term);
  }

  /**
   * Whether a ticket survives both steps; `term` is the already stripped
   * search text. A listed ticket is always selected, and with no term every
   * selected ticket is listed.
   */
  predicate Listed(t: Ticket, selector: string, term: string, userId: int): (b: bool)
    ensures b ==> Selected(t, selector, userId)
    ensures term == [] ==> (b <==> Selected(t, selector, userId))
    ensures Selected(t, selector, userId) && MatchesTerm(t, term) ==> b
  {
    Selected(t, selector, userId) && (term == [] || MatchesTerm(t, term))
  }

  function CreatedAt(t: Ticket): int {
    t.createdAt
  }

  /**
   * The tickets listed for selector `selector` and raw search text `search`
   * (the `q` argument, stripped first), newest first. Exactly the listed
   * tickets appear, each as often as in the store: a sub-multiset of it.
   */
  function QueueTickets(tickets: seq<Ticket>, selector: string, search: string, userId: int): (r: seq<Ticket>)
    ensures forall t :: t in r <==> t in tickets && Listed(t, selector, Strip(search), userId)
    ensures forall t :: multiset(r)[t] == if Listed(t, selector, Strip(search), userId) then multiset(tickets)[t] else 0
    ensures multiset(r) <= multiset(tickets)
    ensures SortedDescBy(r, CreatedAt)
  {
    var term := Strip(search);
    var narrowed := Filter(tickets, (t: Ticket) => Selected(t, selector, userId));
    var searched := if term != [] then Filter(narrowed, (t: Ticket) => MatchesTerm(t, term)) else narrowed;
    var r := SortDescBy(searched, CreatedAt);
    assert forall t :: multiset(r)[t] == if Listed(t, selector, term, userId) then multiset(tickets)[t] else 0;
    assert forall t :: t in r <==> multiset(r)[t] > 0;
    r
  }

  /** `"unassigned"` lists exactly the tickets without an assignee (with no search term). */
  lemma UnassignedSelector(tickets: seq<Ticket>, userId: int, t: Ticket)
    ensures t in QueueTickets(tickets, "unassigned", "", userId) <==> t in tickets && t.assigneeId.None?
  {
    StripUnpadded("");
  }

  /** `"mine"` lists exactly the tickets assigned to the current agent. */
  lemma MineSelector(tickets: seq<Ticket>, userId: int, t: Ticket)
    ensures t in QueueTickets(tickets, "mine", "", userId) <==> t in tickets && t.assigneeId == Some(userId)
  {
    StripUnpadded("");
  }

  /** A priority selector lists exactly that priority. */
  lemma PrioritySelector(tickets: seq<Ticket>, p: string, userId: int, t: Ticket)
    requires p in PrioritySelectors
    ensures t in QueueTickets(tickets, p, "", userId) <==> t in tickets && t.priority == p
  {
    StripUnpadded("");
  }

  /** Any other selector and a blank search list the whole store, reordered. */
  lemma UnknownSelector(tickets: seq<Ticket>, selector: string, search: string, userId: int)
    requires selector !in PrioritySelectors && selector != "unassigned" && selector != "mine"
    requires AllSpace(search)
    ensures multiset(QueueTickets(tickets, selector, search, userId)) == multiset(tickets)
  {
    BlankStripsToEmpty(search);
    var r := QueueTickets(tickets, selector, search, userId);
    assert forall t :: multiset(r)[t] == multiset(tickets)[t];
  }

  // ---------------------------------------------------------------------
  // CSV export

  /** The header row the export writes first. */
  const Header: seq<string> :=
    ["id", "priority", "category", "requester_name", "requester_email",
     "status", "assignee", "created_at", "first_response_due_at", "first_response_met_at", "sla"]

  /** The eleven values of one data row, named after the header's columns. */
  datatype Row = Row(
    id: string, priority: string, category: string, requesterName: string, requesterEmail: string,
    status: string, assignee: string, createdAt: string, firstResponseDueAt: string,
    firstResponseMetAt: string, sla: string)

  /**
   * `fmt`: an absent timestamp is the empty cell, a present one goes to
   * `format` (strftime); so with a formatter that never yields "" the cell is
   * empty exactly when the timestamp is absent.
   */
  function FormatCell(dt: Option<Timestamp>, format: Timestamp -> string): (r: string)
    ensures dt.None? ==> r == ""
    ensures dt.Some? ==> r == format(dt.value)
    ensures (forall v :: format(v) != []) ==> (r == "" <==> dt.None?)
  {
    match dt
    case None => ""
    case Some(v) => format(v)
  }

  /**
   * `user_map.get(t.assignee_id, "")`: the assignee's email when the ticket
   * has an assignee the map knows, and the empty cell when it is unassigned
   * or the lookup misses.
   */
  function AssigneeCell(assigneeId: Option<int>, userMap: map<int, string>): (r: string)
    ensures assigneeId.None? ==> r == ""
    ensures assigneeId.Some? && assigneeId.value !in userMap ==> r == ""
    ensures assigneeId.Some? && assigneeId.value in userMap ==> r == userMap[assigneeId.value]
    ensures r == "" || r in userMap.Values
  {
    if assigneeId.Some? && assigneeId.value in userMap then userMap[assigneeId.value] else ""
  }

  /**
   * The row written for one ticket: its id cell is the id in decimal
   * (`ExportIdCell`), the text columns are the ticket's own, the assignee and date cells are
   * `AssigneeCell` and `FormatCell` of its fields, and the SLA column is the
   * text the queue shows.
   */
  function ExportRow(t: Ticket, userMap: map<int, string>, now: Timestamp,
                     format: Timestamp -> string): (r: Row)
    ensures r.id == NatToString(t.id)
    ensures r.priority == t.priority && r.category == t.category && r.status == t.status
    ensures r.requesterName == t.requesterName && r.requesterEmail == t.requesterEmail
    ensures r.assignee == AssigneeCell(t.assigneeId, userMap)
    ensures r.createdAt == format(t.createdAt)
    ensures r.firstResponseDueAt == FormatCell(t.firstResponseDueAt, format)
    ensures r.firstResponseMetAt == FormatCell(t.firstResponseMetAt, format)
    ensures r.sla == TicketSlaText(t, now)
  {
    Row(NatToString(t.id), t.priority, t.category, t.requesterName, t.requesterEmail,
        t.status, AssigneeCell(t.assigneeId, userMap), FormatCell(Some(t.createdAt), format),
        FormatCell(t.firstResponseDueAt, format), FormatCell(t.firstResponseMetAt, format),
        TicketSlaText(t, now))
  }

  /** The id cell reads back as the ticket's id. */
  lemma ExportIdCell(t: Ticket, userMap: map<int, string>, now: Timestamp, format: Timestamp -> string)
    ensures ParseInt(ExportRow(t, userMap, now, format).id) == Some(t.id as int)
  {
    ParseIntRoundTrip(t.id);
  }

  /**
   * A date cell is "" exactly when its timestamp is absent, given that the
   * formatter never produces an empty string (strftime with "%Y-%m-%d %H:%M"
   * does not).
   */
  lemma ExportDateCells(t: Ticket, userMap: map<int, string>, now: Timestamp, format: Timestamp -> string)
    requires forall v :: format(v) != []
    ensures var row := ExportRow(t, userMap, now, format);
      && row.createdAt == format(t.createdAt)
      && (row.firstResponseDueAt == "" <==> t.firstResponseDueAt.None?)
      && (row.firstResponseMetAt == "" <==> t.firstResponseMetAt.None?)
  {
  }

  /**
   * `agent_export_csv`: the header, then one row per queued ticket in queue
   * order, for the same selector, search text and agent as the queue view.
   * `now` stands for the clock `_sla_text` reads; `format` for strftime.
   */
  method ExportCsv(tickets: seq<Ticket>, selector: string, search: string, userId: int,
                   userMap: map<int, string>, now: Timestamp, format: Timestamp -> string)
    returns (header: seq<string>, listed: seq<Ticket>, rows: seq<Row>)
    ensures header == Header
    ensures listed == QueueTickets(tickets, selector, search, userId)
    ensures |rows| == |listed|
    ensures forall i :: 0 <= i < |rows| ==> rows[i] == ExportRow(listed[i], userMap, now, format)
  {
    listed := QueueTickets(tickets, selector, search, userId);
    header := Header;
    rows := WriteRows(listed, userMap, now, format);
  }

  /** The loop of `agent_export_csv` that writes one row per listed ticket, in order. */
  method WriteRows(listed: seq<Ticket>, userMap: map<int, string>, now: Timestamp,
                   format: Timestamp -> string)
    returns (rows: seq<Row>)
    ensures |rows| == |listed|
    ensures forall i :: 0 <= i < |rows| ==> rows[i] == ExportRow(listed[i], userMap, now, format)
  {
    rows := [];
    for i := 0 to |listed|
      invariant |rows| == i
      invariant forall k :: 0 <= k < i ==> rows[k] == ExportRow(listed[k], userMap, now, format)
    {
      rows := rows + [ExportRow(listed[i], userMap, now, format)];
    }
  }
}
