/**
 * The requester-facing side (app/public.py): the first-response deadline of
 * a new ticket, the ticket record a submission creates, and the status page
 * that reveals a ticket to whoever knows its id and its requester's email.
 */
module Public {
  import opened Wrappers
  import opened Text
  import opened Seqs
  import opened Tickets
  import opened Sla

  /** The response windows per priority, in hours (`timedelta(days=1)` is 24 of them). */
  const WindowHours: map<string, nat> := map["P1" := 1, "P2" := 4, "P3" := 24, "P4" := 48]

  /** The window for a priority the table does not list. */
  const DefaultWindowHours: nat := 48

  /** Every window, the default included, is between one and forty-eight hours. */
  function ResponseHours(priority: string): (h: nat)
    ensures 1 <= h <= 48
  {
    if priority in WindowHours then WindowHours[priority] else DefaultWindowHours
  }

  /** `mapping.get(priority, timedelta(days=2))`, in microseconds. */
  function ResponseWindow(priority: string): int {
    ResponseHours(priority) * MicrosPerHour
  }

  /**
   * `compute_first_response_due`: the start plus the priority's window. The
   * deadline lies between one and forty-eight hours after the start.
   */
  function FirstResponseDue(priority: string, start: Timestamp): (due: Timestamp)
    ensures start + MicrosPerHour <= due <= start + 48 * MicrosPerHour
  {
    start + ResponseWindow(priority)
  }

  /** One, four, twenty-four and forty-eight hours for P1 to P4. */
  lemma DueByPriority(start: Timestamp)
    ensures FirstResponseDue("P1", start) == start + MicrosPerHour
    ensures FirstResponseDue("P2", start) == start + 4 * MicrosPerHour
    ensures FirstResponseDue("P3", start) == start + 24 * MicrosPerHour
    ensures FirstResponseDue("P4", start) == start + 48 * MicrosPerHour
  {
  }

  /** Any other priority string falls back to forty-eight hours. */
  lemma DueForUnknownPriority(priority: string, start: Timestamp)
    requires priority !in {"P1", "P2", "P3", "P4"}
    ensures FirstResponseDue(priority, start) == start + 48 * MicrosPerHour
  {
  }

  /** The more urgent the priority, the earlier the deadline. */
  lemma DueOrdering(start: Timestamp)
    ensures FirstResponseDue("P1", start) < FirstResponseDue("P2", start)
              < FirstResponseDue("P3", start) < FirstResponseDue("P4", start)
  {
  }

  // ---------------------------------------------------------------------
  // submit_request

  /**
   * The record `submit_request` builds from a validated form. `now` is the
   * instant the handler reads; `id` and `createdAt` are filled in by the
   * database (its primary key and the column default). A submitted ticket
   * is open, unassigned and not yet answered, keeps its category and
   * priority, is due the priority's window after `now`, and its name, email
   * and description are the submitted ones stripped (`NewTicketTrimmed`).
   */
  function NewTicket(id: nat, name: string, email: string, category: string,
                     priority: string, description: string,
                     now: Timestamp, createdAt: Timestamp): (t: Ticket)
    ensures t.status == "Open" && t.assigneeId.None? && t.firstResponseMetAt.None?
    ensures t.id == id && t.category == category && t.priority == priority && t.createdAt == createdAt
    ensures t.firstResponseDueAt == Some(FirstResponseDue(priority, now))
    ensures t.requesterName == Strip(name) && t.requesterEmail == Strip(email)
    ensures t.description == Strip(description)
  {
    Ticket(id, Strip(name), Strip(email), category, priority, Strip(description),
           "Open", None, Some(FirstResponseDue(priority, now)), None, createdAt)
  }

  /** The text fields of a submitted ticket carry no outer whitespace. */
  lemma NewTicketTrimmed(id: nat, name: string, email: string, category: string,
                         priority: string, description: string,
                         now: Timestamp, createdAt: Timestamp)
    ensures var t := NewTicket(id, name, email, category, priority, description, now, createdAt);
      && Strip(t.requesterName) == t.requesterName
      && Strip(t.requesterEmail) == t.requesterEmail
      && Strip(t.description) == t.description
  {
    StripIdempotent(name);
    StripIdempotent(email);
    StripIdempotent(description);
  }

  /**
   * At the instant of submission the agent queue shows the full window as a
   * countdown in whole hours: "1h 0m left" for P1, up to "48h 0m left".
   */
  lemma NewTicketCountsDown(id: nat, name: string, email: string, category: string,
                            priority: string, description: string,
                            now: Timestamp, createdAt: Timestamp)
    ensures var t := NewTicket(id, name, email, category, priority, description, now, createdAt);
      TicketSlaText(t, now) == NatToString(ResponseHours(priority)) + "h 0m left"
  {
    var t := NewTicket(id, name, email, category, priority, description, now, createdAt);
    HourCountdown(t, now, priority);
  }

  /** An unanswered ticket due the window of `priority` ahead counts down "{hours}h 0m left". */
  lemma HourCountdown(t: Ticket, now: Timestamp, priority: string)
    requires t.firstResponseDueAt == Some(FirstResponseDue(priority, now)) && t.firstResponseMetAt.None?
    ensures TicketSlaText(t, now) == NatToString(ResponseHours(priority)) + "h 0m left"
  {
    HoursAheadText(t.firstResponseDueAt.value, now, ResponseHours(priority));
  }

  /** A due time a whole number of hours ahead counts down "{hours}h 0m left". */
  lemma HoursAheadText(due: Timestamp, now: Timestamp, hours: nat)
    requires hours >= 1 && due == now + hours * MicrosPerHour
    ensures SlaText(Some(due), None, now) == NatToString(hours) + "h 0m left"
  {
    CountdownText(due, now, hours, 0);
    var digits := NatToString(hours);
    assert NatToString(0) == "0";
    assert digits + "h " + "0" + "m left" == digits + "h 0m left";
  }

  // ---------------------------------------------------------------------
  // check_status

  /** What the status page shows: the ticket, if revealed, and its public replies. */
  datatype StatusView = StatusView(ticket: Option<Ticket>, publicComments: seq<Comment>)

  /**
   * Both emails are compared after `.strip().lower()`: the result has no
   * outer whitespace and no upper-case letter, so normalising it again
   * changes nothing.
   */
  function NormalizeEmail(s: string): (r: string)
    ensures |r| <= |s|
    ensures forall i :: 0 <= i < |r| ==> !('A' <= r[i] <= 'Z')
    ensures Lower(Strip(r)) == r
  {
    var stripped := Strip(s);
    LowerIdempotent(stripped);
    LowerUnpadded(stripped);
    StripUnpadded(Lower(stripped));
    Lower(stripped)
  }

  /** Ordered by creation time, oldest first. */
  ghost predicate OldestFirst(cs: seq<Comment>) {
    forall i, j :: 0 <= i < j < |cs| ==> cs[i].createdAt <= cs[j].createdAt
  }

  /** The public replies on ticket `ticketId`, oldest first. */
  function PublicComments(comments: seq<Comment>, ticketId: nat): (r: seq<Comment>)
    ensures forall c :: c in r <==> c in comments && c.ticketId == ticketId && c.visibility == "public"
    ensures multiset(r) == multiset(Filter(comments, (c: Comment) => c.ticketId == ticketId && c.visibility == "public"))
    ensures OldestFirst(r)
  {
    var mine := Filter(comments, (c: Comment) => c.ticketId == ticketId && c.visibility == "public");
    var r := SortDescBy(mine, (c: Comment) => -c.createdAt);
    assert forall c :: c in r <==> c in mine by {
      forall c ensures c in r <==> c in mine {
        assert c in r <==> c in multiset(r);
      }
    }
    r
  }

  /**
   * `check_status`. `validated` is whether the form passed its validators;
   * `ticketIdField` and `emailField` are the submitted values.
   */
  function CheckStatus(tickets: seq<Ticket>, comments: seq<Comment>, validated: bool,
                       ticketIdField: string, emailField: string): (r: StatusView)
    ensures r.ticket.Some? ==>
      && validated
      && ParseInt(ticketIdField).Some? && ParseInt(ticketIdField).value != 0
      && r.ticket.value in tickets
      && r.ticket.value.id == ParseInt(ticketIdField).value
      && NormalizeEmail(r.ticket.value.requesterEmail) == NormalizeEmail(emailField)
    ensures r.ticket.None? ==> r.publicComments == []
    ensures r.ticket.Some? ==>
      forall c :: c in r.publicComments <==>
        c in comments && c.ticketId == r.ticket.value.id && c.visibility == "public"
    ensures OldestFirst(r.publicComments)
    ensures forall k :: 0 <= k < |tickets| && UniqueIds(tickets) && validated
                        && ParseInt(ticketIdField) == Some(tickets[k].id as int) && tickets[k].id != 0
                        && NormalizeEmail(tickets[k].requesterEmail) == NormalizeEmail(emailField)
                        ==> r.ticket == Some(tickets[k])
  {
    if !validated then StatusView(None, [])
    else match ParseInt(ticketIdField)
      case None => StatusView(None, [])
      case Some(tid) =>
        if tid == 0 then StatusView(None, [])
        else match FindTicket(tickets, tid)
          case None => StatusView(None, [])
          case Some(k) =>
            var t := tickets[k];
            if NormalizeEmail(t.requesterEmail) == NormalizeEmail(emailField) then
              StatusView(Some(t), PublicComments(comments, t.id))
            else StatusView(None, [])
  }
}
