/**
 * The admin dashboard (`admin_dashboard` in app/auth.py): how many tickets
 * arrived today, how many are open, and per priority and overall how many
 * tickets with a first-response deadline had their first response on time.
 */
module Dashboard {
  import opened Wrappers
  import opened Seqs
  import opened Tickets

  /** The statuses counted as open. */
  const OpenStatuses: seq<string> := ["Open", "In Progress", "Waiting on Requester"]

  /** The tiers the per-priority table lists, in order. */
  const Tiers: seq<string> := ["P1", "P2", "P3", "P4"]

  /** A ticket in the compliance denominator: it has a deadline. */
  predicate HasDue(t: Ticket) {
    t.firstResponseDueAt.Some?
  }

  /** A ticket in the numerator: answered, at or before its deadline. */
  predicate MetOnTime(t: Ticket) {
    && t.firstResponseDueAt.Some?
    && t.firstResponseMetAt.Some?
    && t.firstResponseMetAt.value <= t.firstResponseDueAt.value
  }

  /** `now.replace(hour=0, minute=0, second=0, microsecond=0)`: the last UTC midnight. */
  function StartOfDay(now: Timestamp): (sod: Timestamp)
    ensures sod <= now < sod + MicrosPerDay
    ensures sod % MicrosPerDay == 0
  {
    now - now % MicrosPerDay
  }

  function Abs(x: int): nat {
    if x < 0 then -x else x
  }

  /**
   * `n / d` rounded to the nearest integer, ties to the even neighbour, as
   * Python's `round` does: within half of `d` of `n` once multiplied back,
   * and even whenever it is exactly half-way.
   */
  function RoundHalfEven(n: nat, d: nat): (v: nat)
    requires d > 0
    ensures 2 * Abs(v * d - n) <= d
    ensures 2 * Abs(v * d - n) == d ==> v % 2 == 0
  {
    QuotientNeighbours(n, d);
    var q := n / d;
    var rem := n % d;
    if 2 * rem > d || (2 * rem == d && q % 2 == 1) then q + 1 else q
  }

  /** The two integers around `n / d`, multiplied back, miss `n` by the remainder and its complement. */
  lemma QuotientNeighbours(n: nat, d: nat)
    requires d > 0
    ensures (n / d) * d - n == -(n % d)
    ensures (n / d + 1) * d - n == d - n % d
  {
    var q := n / d;
    assert n == q * d + n % d;
    assert (q + 1) * d == q * d + d;
  }

  /** The rounded share of a part within its whole is at most 100 percent. */
  lemma RoundedShareBound(a: nat, b: nat)
    requires 0 < b
    ensures a <= b ==> RoundHalfEven(100 * a, b) <= 100
  {
    if a > b { return; }
    var v := RoundHalfEven(100 * a, b);
    var vb := v * b;
    assert 2 * (vb - 100 * a) <= b;
    assert (2 * v) * b == 2 * vb;
    assert 201 * b == 200 * b + b;
    ScaleDown(2 * v, 201, b);
  }

  /** `pct(a, b)`: `round((a / b) * 100)`, or `None` when `b` is zero. */
  function Pct(a: nat, b: nat): (r: Option<int>)
    ensures r.None? <==> b == 0
    ensures r.Some? ==> 2 * Abs(r.value * b - 100 * a) <= b
    ensures r.Some? && 2 * Abs(r.value * b - 100 * a) == b ==> r.value % 2 == 0
    ensures r.Some? && a <= b ==> 0 <= r.value <= 100
  {
    if b == 0 then None
    else
      RoundedShareBound(a, b);
      Some(RoundHalfEven(100 * a, b))
  }

  /** The per-priority entry: tickets with a deadline, those met on time, the percentage. */
  datatype Tier = Tier(total: nat, met: nat, pct: Option<int>)

  datatype Report = Report(
    newToday: nat,
    openCount: nat,
    overallMet: nat,
    overallTotal: nat,
    overallPct: Option<int>,
    byPriority: map<string, Tier>)

  predicate DueIn(t: Ticket, p: string) {
    t.priority == p && HasDue(t)
  }

  predicate MetIn(t: Ticket, p: string) {
    t.priority == p && MetOnTime(t)
  }

  /** `Ticket.query.filter(priority == p, due isnot None).count()`. */
  function DueCount(tickets: seq<Ticket>, p: string): nat {
    Count(tickets, (t: Ticket) => DueIn(t, p))
  }

  /** The same count further restricted to tickets met on time. */
  function MetCount(tickets: seq<Ticket>, p: string): nat {
    Count(tickets, (t: Ticket) => MetIn(t, p))
  }

  /**
   * The entry for priority `p`: it never holds more met than eligible
   * tickets, nor more of either than the whole store; its percentage is
   * absent exactly when it has no eligible ticket, and otherwise within
   * 0..100.
   */
  function TierOf(tickets: seq<Ticket>, p: string): (r: Tier)
    ensures r.met <= r.total <= Count(tickets, HasDue)
    ensures r.met <= Count(tickets, MetOnTime)
    ensures r.pct.None? <==> r.total == 0
    ensures r.pct.Some? ==> 0 <= r.pct.value <= 100
  {
    MetAtMostTotal(tickets, p);
    TierAtMostOverall(tickets, p);
    Tier(DueCount(tickets, p), MetCount(tickets, p), Pct(MetCount(tickets, p), DueCount(tickets, p)))
  }

  /** Met on time is never more than eligible, per tier and overall. */
  lemma MetAtMostTotal(tickets: seq<Ticket>, p: string)
    ensures MetCount(tickets, p) <= DueCount(tickets, p)
    ensures Count(tickets, MetOnTime) <= Count(tickets, HasDue)
  {
    CountMonotonic(tickets, (t: Ticket) => MetIn(t, p), (t: Ticket) => DueIn(t, p));
    CountMonotonic(tickets, MetOnTime, HasDue);
  }

  /** A tier never holds more eligible or met tickets than the whole store. */
  lemma TierAtMostOverall(tickets: seq<Ticket>, p: string)
    ensures DueCount(tickets, p) <= Count(tickets, HasDue)
    ensures MetCount(tickets, p) <= Count(tickets, MetOnTime)
  {
    CountMonotonic(tickets, (t: Ticket) => DueIn(t, p), HasDue);
    CountMonotonic(tickets, (t: Ticket) => MetIn(t, p), MetOnTime);
  }

  /**
   * The four tiers together hold no more eligible tickets than the overall
   * total, and exactly as many when every priority is one of P1..P4.
   */
  lemma {:induction false} TiersPartitionTotal(tickets: seq<Ticket>)
    ensures DueCount(tickets, "P1") + DueCount(tickets, "P2")
            + DueCount(tickets, "P3") + DueCount(tickets, "P4") <= Count(tickets, HasDue)
    ensures (forall k :: 0 <= k < |tickets| ==> tickets[k].priority in Tiers) ==>
            DueCount(tickets, "P1") + DueCount(tickets, "P2")
            + DueCount(tickets, "P3") + DueCount(tickets, "P4") == Count(tickets, HasDue)
  {
    if tickets != [] {
      var rest := tickets[1..];
      TiersPartitionTotal(rest);
      assert forall k :: 0 <= k < |rest| ==> rest[k] == tickets[k + 1];
    }
  }

  /** A met time at exactly the deadline counts as on time; one microsecond later does not. */
  lemma DeadlineIsInclusive(t: Ticket, due: Timestamp)
    ensures MetOnTime(t.(firstResponseDueAt := Some(due), firstResponseMetAt := Some(due)))
    ensures !MetOnTime(t.(firstResponseDueAt := Some(due), firstResponseMetAt := Some(due + 1)))
  {
  }

  /**
   * `admin_dashboard`: the counts for the snapshot `tickets` at the instant
   * `now`. The per-priority table is filled by a loop over P1..P4.
   */
  method AdminDashboard(tickets: seq<Ticket>, now: Timestamp) returns (report: Report)
    ensures report.newToday == Count(tickets, (t: Ticket) => t.createdAt >= StartOfDay(now))
    ensures report.openCount == Count(tickets, (t: Ticket) => t.status in OpenStatuses)
    ensures report.overallTotal == Count(tickets, HasDue)
    ensures report.overallMet == Count(tickets, MetOnTime)
    ensures report.overallMet <= report.overallTotal
    ensures report.overallPct == Pct(report.overallMet, report.overallTotal)
    ensures report.newToday <= |tickets| && report.openCount <= |tickets| && report.overallTotal <= |tickets|
    ensures report.byPriority.Keys == {"P1", "P2", "P3", "P4"}
    ensures report.byPriority["P1"].total + report.byPriority["P2"].total
            + report.byPriority["P3"].total + report.byPriority["P4"].total <= report.overallTotal
    ensures forall p :: p in report.byPriority ==>
              && report.byPriority[p] == TierOf(tickets, p)
              && report.byPriority[p].met <= report.byPriority[p].total <= report.overallTotal
  {
    var sod := StartOfDay(now);
    var newToday := Count(tickets, (t: Ticket) => t.createdAt >= sod);
    var openCount := Count(tickets, (t: Ticket) => t.status in OpenStatuses);
    var totalWithDue := Count(tickets, HasDue);
    var metOnTime := Count(tickets, MetOnTime);
    MetAtMostTotal(tickets, "P1");
    TiersPartitionTotal(tickets);
    var byPriority: map<string, Tier> := map[];
    for i := 0 to |Tiers|
      invariant byPriority.Keys == set k | 0 <= k < i :: Tiers[k]
      invariant forall p :: p in byPriority ==>
                  && byPriority[p] == TierOf(tickets, p)
                  && byPriority[p].met <= byPriority[p].total <= totalWithDue
    {
      var p := Tiers[i];
      var totalP := DueCount(tickets, p);
      var metP := MetCount(tickets, p);
      MetAtMostTotal(tickets, p);
      TierAtMostOverall(tickets, p);
      byPriority := byPriority[p := Tier(totalP, metP, Pct(metP, totalP))];
    }
    assert (set k | 0 <= k < 4 :: Tiers[k]) == {"P1", "P2", "P3", "P4"} by {
      assert Tiers[0] == "P1" && Tiers[1] == "P2" && Tiers[2] == "P3" && Tiers[3] == "P4";
    }
    report := Report(newToday, openCount, metOnTime, totalWithDue,
                     Pct(metOnTime, totalWithDue), byPriority);
  }

  /** With no tickets every count is zero and no percentage is shown. */
  lemma EmptyStore(p: string)
    ensures Count([], HasDue) == 0 && Pct(Count([], MetOnTime), Count([], HasDue)).None?
    ensures TierOf([], p) == Tier(0, 0, None)
  {
  }

  /** Three of four eligible tickets met on time is 75 percent. */
  lemma ThreeOfFour()
    ensures Pct(3, 4) == Some(75)
  {
  }
}
