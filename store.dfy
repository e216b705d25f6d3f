/**
 * The state changes agents make to the store (app/auth.py): posting a reply
 * or an internal note on a ticket, which stamps the first response, and
 * taking a ticket for oneself.
 */
module Store {
  import opened Wrappers
  import opened Text
  import opened Seqs
  import opened Tickets
  import opened Queue
  import opened Dashboard

  /** The submitted visibility, with anything but "public" or "internal" taken as "public". */
  function NormalizeVisibility(v: string): (r: string)
    ensures r == "public" || r == "internal"
    ensures r == "internal" <==> v == "internal"
  {
    if v in {"public", "internal"} then v else "public"
  }

  /** Both accepted values pass through unchanged, so normalising twice changes nothing. */
  lemma NormalizeVisibilityIdempotent(v: string)
    ensures NormalizeVisibility(NormalizeVisibility(v)) == NormalizeVisibility(v)
    ensures v == "public" || v == "internal" ==> NormalizeVisibility(v) == v
  {
  }

  /**
   * The ticket after a comment of (normalised) visibility `visibility` at
   * `now`: the first public reply stamps the first-response time, and
   * nothing else about the ticket changes.
   */
  function RecordFirstResponse(t: Ticket, visibility: string, now: Timestamp): (r: Ticket)
    ensures r.(firstResponseMetAt := t.firstResponseMetAt) == t
    ensures t.firstResponseMetAt.Some? ==> r == t
    ensures r.firstResponseMetAt.Some? <==> t.firstResponseMetAt.Some? || visibility == "public"
    ensures r != t ==> visibility == "public" && r.firstResponseMetAt == Some(now)
  {
    if visibility == "public" && t.firstResponseMetAt.None? then t.(firstResponseMetAt := Some(now)) else t
  }

  /** A reply, as far as the first-response stamp is concerned: its visibility and its instant. */
  datatype Reply = Reply(visibility: string, at: Timestamp)

  /** The ticket after the replies `replies`, oldest first. */
  function AfterReplies(t: Ticket, replies: seq<Reply>): Ticket
    decreases |replies|
  {
    if replies == [] then t
    else AfterReplies(RecordFirstResponse(t, replies[0].visibility, replies[0].at), replies[1..])
  }

  /** Reply `k` is public and every reply before it is internal. */
  predicate FirstPublicIndex(replies: seq<Reply>, k: int) {
    && 0 <= k < |replies|
    && replies[k].visibility == "public"
    && forall j :: 0 <= j < k ==> replies[j].visibility != "public"
  }

  /** The instant of the first public reply in `replies`, if there is one. */
  function FirstPublicAt(replies: seq<Reply>): (r: Option<Timestamp>)
    ensures r.None? <==> forall k :: 0 <= k < |replies| ==> replies[k].visibility != "public"
    ensures r.Some? ==> exists k :: FirstPublicIndex(replies, k) && replies[k].at == r.value
  {
    if replies == [] then None
    else if replies[0].visibility == "public" then
      assert FirstPublicIndex(replies, 0);
      Some(replies[0].at)
    else
      var rest := FirstPublicAt(replies[1..]);
      assert forall k :: 0 <= k < |replies[1..]| ==> replies[1..][k] == replies[k + 1];
      assert rest.Some? ==> exists k :: FirstPublicIndex(replies, k) && replies[k].at == rest.value by {
        if rest.Some? {
          var k' :| FirstPublicIndex(replies[1..], k') && replies[1..][k'].at == rest.value;
          assert FirstPublicIndex(replies, k' + 1);
        }
      }
      rest
  }

  /**
   * The stamp is written once: after any run of replies the first-response
   * time is the one the ticket already had, or else the instant of the first
   * public reply; internal notes never set it, and nothing else changes.
   */
  lemma {:induction false} FirstResponseIsFirstPublicReply(t: Ticket, replies: seq<Reply>)
    ensures AfterReplies(t, replies).firstResponseMetAt ==
              if t.firstResponseMetAt.Some? then t.firstResponseMetAt else FirstPublicAt(replies)
    ensures AfterReplies(t, replies).(firstResponseMetAt := t.firstResponseMetAt) == t
    decreases |replies|
  {
    if replies != [] {
      var t' := RecordFirstResponse(t, replies[0].visibility, replies[0].at);
      FirstResponseIsFirstPublicReply(t', replies[1..]);
    }
  }

  /** A public reply to an unanswered ticket is on time exactly when it is no later than the deadline. */
  lemma ReplyOnTime(t: Ticket, now: Timestamp)
    requires t.firstResponseDueAt.Some? && t.firstResponseMetAt.None?
    ensures MetOnTime(RecordFirstResponse(t, "public", now)) <==> now <= t.firstResponseDueAt.value
    ensures !MetOnTime(RecordFirstResponse(t, "internal", now))
  {
  }

  /** The ticket after `assign_to_me` by the agent `userId`. */
  function Assign(t: Ticket, userId: int): (r: Ticket)
    ensures r.(assigneeId := t.assigneeId) == t
    ensures r.assigneeId == Some(userId)
  {
    t.(assigneeId := Some(userId))
  }

  /** A ticket one has taken shows under "mine" and no longer under "unassigned". */
  lemma AssignMovesToMine(t: Ticket, userId: int)
    ensures Selected(Assign(t, userId), "mine", userId)
    ensures !Selected(Assign(t, userId), "unassigned", userId)
  {
  }

  /** The ticket and comment tables, and the agent actions that update them in place. */
  class HelpDesk {
    var tickets: seq<Ticket>
    var comments: seq<Comment>

    /** Primary keys stay unique. */
    ghost predicate Valid()
      reads this
    {
      UniqueIds(tickets)
    }

    constructor(tickets0: seq<Ticket>, comments0: seq<Comment>)
      requires UniqueIds(tickets0)
      ensures Valid()
      ensures tickets == tickets0 && comments == comments0
    {
      tickets := tickets0;
      comments := comments0;
    }

    /**
     * `ticket_post_comment` on ticket `ticketId` (the URL's non-negative
     * integer). `found` is false where `get_or_404` answers 404; `validated`
     * is whether the form passed its validators; `authorId` is the session's
     * user, if any; `now` the stamping clock and `createdAt` the new row's
     * default creation time.
     */
    method PostComment(ticketId: nat, validated: bool, visibility: string, body: string,
                       authorId: Option<int>, now: Timestamp, createdAt: Timestamp)
      returns (found: bool)
      requires Valid()
      modifies this
      ensures Valid()
      ensures found <==> FindTicket(old(tickets), ticketId).Some?
      ensures !(found && validated) ==> tickets == old(tickets) && comments == old(comments)
      ensures found && validated ==>
        var k := FindTicket(old(tickets), ticketId).value;
        var vis := NormalizeVisibility(visibility);
        && comments == old(comments) + [Comment(ticketId, authorId, vis, Strip(body), createdAt)]
        && tickets == old(tickets)[k := RecordFirstResponse(old(tickets)[k], vis, now)]
    {
      var k := FindTicket(tickets, ticketId);
      if k.None? {
        return false;
      }
      found := true;
      if validated {
        var i := k.value;
        var t := tickets[i];
        var vis := NormalizeVisibility(visibility);
        comments := comments + [Comment(t.id, authorId, vis, Strip(body), createdAt)];
        var t' := RecordFirstResponse(t, vis, now);
        tickets := tickets[i := t'];
        assert forall j :: 0 <= j < |tickets| ==> tickets[j].id == old(tickets)[j].id;
      }
    }

    /**
     * `assign_to_me` by the agent `userId` with the submitted hidden field
     * `ticketIdField`: a field that does not parse, or names no ticket,
     * changes nothing.
     */
    method AssignToMe(validated: bool, ticketIdField: string, userId: int)
      requires Valid()
      modifies this
      ensures Valid()
      ensures comments == old(comments)
      ensures var r := ParseInt(ticketIdField);
        if validated && r.Some? && FindTicket(old(tickets), r.value).Some? then
          var k := FindTicket(old(tickets), r.value).value;
          tickets == old(tickets)[k := Assign(old(tickets)[k], userId)]
        else tickets == old(tickets)
    {
      if !validated {
        return;
      }
      var r := ParseInt(ticketIdField);
      if r.None? {
        return;
      }
      var k := FindTicket(tickets, r.value);
      if k.Some? {
        var i := k.value;
        tickets := tickets[i := Assign(tickets[i], userId)];
        assert forall j :: 0 <= j < |tickets| ==> tickets[j].id == old(tickets)[j].id;
      }
    }
  }
}
