/**
 * The agent-side rendering of a ticket's first-response SLA (`_sla_text` in
 * app/auth.py): "—" when no due time is recorded, "Met" once a first
 * response exists, otherwise a countdown or a breach duration in whole
 * hours and minutes. The clock is the parameter `now`.
 */
module Sla {
  import opened Wrappers
  import opened Text
  import opened Seqs
  import opened Tickets

  /**
   * `int(x.total_seconds())` for a duration of `micros` microseconds:
   * the whole seconds, truncated toward zero (Dafny's own `/` on a negative
   * numerator rounds down instead).
   */
  function WholeSeconds(micros: int): (q: int)
    ensures micros >= 0 ==> q >= 0 && q * MicrosPerSecond <= micros < q * MicrosPerSecond + MicrosPerSecond
    ensures micros < 0 ==> q <= 0 && q * MicrosPerSecond - MicrosPerSecond < micros <= q * MicrosPerSecond
  {
    if micros >= 0 then micros / MicrosPerSecond else -((-micros) / MicrosPerSecond)
  }

  /** `f"{h}h {m}m"`, or `f"{m}m"` when `h` is zero: digits first, "m" last. */
  function Duration(h: nat, m: nat): (r: string)
    ensures |r| >= 2 && IsDigit(r[0]) && r[|r| - 1] == 'm'
  {
    var hs := NatToString(h);
    var ms := NatToString(m);
    if h != 0 then
      assert (hs + "h " + ms + "m")[0] == hs[0];
      hs + "h " + ms + "m"
    else
      assert (ms + "m")[0] == ms[0];
      ms + "m"
  }

  /** Splits a non-negative number of seconds into whole hours and leftover whole minutes. */
  function HoursMinutes(seconds: nat): (r: string)
    ensures |r| >= 2 && IsDigit(r[0])
  {
    Duration(seconds / 3600, (seconds % 3600) / 60)
  }

  /** A text that reports a breach. */
  predicate IsBreachText(text: string) {
    |text| >= 9 && text[..9] == "Breached "
  }

  /**
   * `_sla_text` of a ticket whose due and met times are `due` and `met`, read
   * at `now`. The kinds of text never coincide: it is "—" exactly when no due
   * time is recorded, "Met" exactly when there are both a due and a met time
   * (a late response included), and for an unmet ticket it reports a breach
   * exactly when less than one whole second is left.
   */
  function SlaText(due: Option<Timestamp>, met: Option<Timestamp>, now: Timestamp): (r: string)
    ensures r == "—" <==> due.None?
    ensures r == "Met" <==> due.Some? && met.Some?
    ensures due.Some? && met.None? ==> (IsBreachText(r) <==> WholeSeconds(due.value - now) <= 0)
  {
    if due.None? then "—"
    else if met.Some? then "Met"
    else
      var delta := WholeSeconds(due.value - now);
      if delta > 0 then
        var hm := HoursMinutes(delta);
        assert (hm + " left")[0] == hm[0];
        hm + " left"
      else
        var text := "Breached " + HoursMinutes(-delta);
        assert text[0] == 'B' && text[..9] == "Breached ";
        text
  }

  function TicketSlaText(t: Ticket, now: Timestamp): string {
    SlaText(t.firstResponseDueAt, t.firstResponseMetAt, now)
  }

  // ---------------------------------------------------------------------
  // What the text says

  /** The two texts of an unmet ticket with a due time: a countdown, or a breach. */
  lemma UnmetText(due: Timestamp, now: Timestamp)
    ensures var delta := WholeSeconds(due - now);
      && (delta > 0 ==> SlaText(Some(due), None, now) == HoursMinutes(delta) + " left")
      && (delta <= 0 ==> SlaText(Some(due), None, now) == "Breached " + HoursMinutes(-delta))
  {
  }

  /** A non-negative gap within the minute from `s` seconds has between `s` and `s + 59` whole seconds. */
  lemma WholeSecondsWithin(micros: int, s: nat)
    requires s * MicrosPerSecond <= micros < (s + 60) * MicrosPerSecond
    ensures s <= WholeSeconds(micros) < s + 60
    ensures micros >= MicrosPerSecond ==> WholeSeconds(micros) >= 1
  {
    var q := WholeSeconds(micros);
    ScaleDown(s, q + 1, MicrosPerSecond);
    ScaleDown(q, s + 60, MicrosPerSecond);
    ScaleDown(1, q + 1, MicrosPerSecond);
  }

  /**
   * Any `seconds` between `h` hours `m` minutes and one minute later renders
   * as that `h` and `m`: the hours are whole hours, the minutes are what is
   * left below an hour, and leftover seconds are dropped.
   */
  lemma HoursMinutesOf(seconds: nat, h: nat, m: nat)
    requires m < 60
    requires h * 3600 + m * 60 <= seconds < h * 3600 + m * 60 + 60
    ensures HoursMinutes(seconds) == Duration(h, m)
  {
    assert seconds / 3600 == h;
    assert seconds % 3600 == seconds - h * 3600;
  }

  /** The countdown text spelled out: the hours part appears only when there are hours. */
  lemma DurationLeft(h: nat, m: nat)
    ensures h == 0 ==> Duration(h, m) + " left" == NatToString(m) + "m left"
    ensures h != 0 ==> Duration(h, m) + " left" == NatToString(h) + "h " + NatToString(m) + "m left"
  {
    var hs := NatToString(h);
    var ms := NatToString(m);
    if h == 0 {
      assert Duration(h, m) == ms + "m";
      assert (ms + "m") + " left" == ms + ("m" + " left");
    } else {
      assert Duration(h, m) == hs + "h " + ms + "m";
      assert (hs + "h " + ms + "m") + " left" == (hs + "h " + ms) + ("m" + " left");
    }
  }

  /**
   * A due time at least one second ahead renders as a countdown of the whole
   * hours and minutes left: "{h}h {m}m left", or "{m}m left" exactly when
   * there is less than an hour.
   */
  lemma CountdownText(due: Timestamp, now: Timestamp, h: nat, m: nat)
    requires m < 60
    requires due - now >= MicrosPerSecond
    requires (h * 3600 + m * 60) * MicrosPerSecond <= due - now < (h * 3600 + m * 60 + 60) * MicrosPerSecond
    ensures SlaText(Some(due), None, now) == Duration(h, m) + " left"
    ensures h == 0 ==> SlaText(Some(due), None, now) == NatToString(m) + "m left"
    ensures h != 0 ==> SlaText(Some(due), None, now) == NatToString(h) + "h " + NatToString(m) + "m left"
  {
    var delta := WholeSeconds(due - now);
    WholeSecondsWithin(due - now, h * 3600 + m * 60);
    assert delta > 0;
    HoursMinutesOf(delta, h, m);
    DurationLeft(h, m);
    UnmetText(due, now);
  }

  /**
   * A due time in the past renders as "Breached" followed by the whole hours
   * and minutes of the overrun.
   */
  lemma OverdueText(due: Timestamp, now: Timestamp, h: nat, m: nat)
    requires m < 60
    requires (h * 3600 + m * 60) * MicrosPerSecond <= now - due < (h * 3600 + m * 60 + 60) * MicrosPerSecond
    ensures SlaText(Some(due), None, now) == "Breached " + Duration(h, m)
  {
    var over := WholeSeconds(now - due);
    WholeSecondsWithin(now - due, h * 3600 + m * 60);
    assert WholeSeconds(due - now) == -over <= 0;
    HoursMinutesOf(over, h, m);
    UnmetText(due, now);
  }

  /**
   * The boundary of the strict `delta > 0` test: a gap of less than one
   * second either way, including a due time slightly in the future and a
   * due time equal to `now`, renders as "Breached 0m", never as "0m left".
   */
  lemma SubSecondGapText(due: Timestamp, now: Timestamp)
    requires -MicrosPerSecond < due - now < MicrosPerSecond
    ensures SlaText(Some(due), None, now) == "Breached 0m"
  {
    assert WholeSeconds(due - now) == 0;
  }

  /** One hour thirty minutes renders as "1h 30m". */
  lemma NinetyMinuteDuration()
    ensures Duration(1, 30) == "1h 30m"
  {
    assert NatToString(1) == "1";
    assert NatToString(30) == NatToString(3) + [DigitChar(0)] == "30";
  }

  /** Ninety minutes either side of the due time. */
  lemma NinetyMinuteExamples(now: Timestamp)
    ensures SlaText(Some(now + 5400 * MicrosPerSecond), None, now) == "1h 30m left"
    ensures SlaText(Some(now - 5400 * MicrosPerSecond), None, now) == "Breached 1h 30m"
  {
    CountdownText(now + 5400 * MicrosPerSecond, now, 1, 30);
    OverdueText(now - 5400 * MicrosPerSecond, now, 1, 30);
    NinetyMinuteDuration();
  }
}
