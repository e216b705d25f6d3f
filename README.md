# Help desk first-response SLA: a verified model

This project models the ticket logic of a small help desk written as a Flask
application. Requesters submit tickets, and each ticket gets a first-response
deadline that depends on its priority. Agents work a filtered, searchable
queue, export it as CSV, reply to tickets and take tickets for themselves.
An admin dashboard reports first-response compliance. Requesters can look up
their own ticket with its id and their email.

The model has one Dafny module per component:

- `Wrappers`: the `Option` type.
- `Seqs`: the query steps `filter`, `count` and `order_by(... desc)` over an
  in-memory sequence of rows.
- `Text`: the string operations the views use. These are `str.strip()`,
  `str.lower()`, substring search, the decimal rendering of integers, and
  Python's `int(str)`. The model of `int(str)` covers its sign and underscore
  rules, and the whitespace it skips: a narrower set than `str.strip()` cuts,
  because U+001C..U+001F do not count.
- `Tickets`: the ticket and comment records and lookup by primary key.
- `Sla`: `_sla_text`, the text an agent sees for a ticket's first response.
- `Public`: the deadline computation, the record a submission creates, and the
  status lookup.
- `Queue`: the agent queue's narrowing and ordering, and the CSV export loop.
- `Dashboard`: the compliance counts and the rounded percentages, filled by a
  loop over P1..P4.
- `Store`: a `HelpDesk` class holding the ticket and comment tables, with the
  two agent actions that update them in place: posting a comment and
  assigning a ticket to oneself.

Timestamps are integers: microseconds since the epoch, naive UTC.
`int(timedelta.total_seconds())` truncates toward zero, and the model writes
that truncation out (`Sla.WholeSeconds`), because Dafny's `/` rounds a
negative numerator down.

A due time equal to the current instant shows "Breached 0m", not "0m left",
because the code tests `delta > 0` strictly. So does any gap under one second
in either direction (`Sla.SubSecondGapText`).

## Model

| member | source | states |
|---|---|---|
| Text.Strip | app/public.py:27-31 | `strip()` yields a string no longer than its input that neither starts nor ends with whitespace (Python's `isspace` set) |
| Text.StripCutsSpace | app/public.py:27-31 | what `strip()` removes is whitespace from the two ends only; the middle is kept as it is |
| Text.StripIdempotent | app/public.py:27-31 | stripping twice is the same as stripping once |
| Text.BlankStripsToEmpty | app/auth.py:65 | a search text of only whitespace strips to the empty term |
| Text.Lower | app/public.py:64 | lower-casing keeps the length and maps every character through the A-Z case mapping |
| Text.LowerIdempotent | app/public.py:64 | lower-casing twice is lower-casing once, and leaves no upper-case letter |
| Text.LowerUnpadded | app/public.py:64 | lower-casing a string without outer whitespace gives one without outer whitespace |
| Text.Contains | app/auth.py:76-82 | the substring test holds exactly when the term occurs at some position of the text |
| Text.ContainsBounds | app/auth.py:76-82 | the empty term occurs in every text; a term longer than the text occurs nowhere |
| Text.NatToString | app/auth.py:36 | the f-string rendering of a number is at least one digit long, has no other characters, and starts with 0 only for 0 |
| Text.NatToStringValue | app/auth.py:36 | the rendered digits read back as the number |
| Text.NatToStringInjective | app/auth.py:36 | distinct numbers render differently |
| Text.DropUnderscores | app/public.py:59 | dropping the underscores keeps exactly the other characters, and leaves only digits when the text was digits and underscores |
| Text.ParseMagnitude | app/public.py:59 | the digit part of `int()` is accepted exactly when it is digit groups (digits, single underscores between digits) |
| Text.ParseMagnitudeOfNat | app/public.py:59 | reading a rendered number's digits gives the number |
| Text.ParseSigned | app/public.py:59 | a sign and digits are accepted exactly when they are an optional `+` or `-` followed by digit groups, and the sign decides the sign of the value |
| Text.IntStrip | app/public.py:59 | the whitespace `int()` skips is cut from both ends, leaving a string no longer than the input that neither starts nor ends with such whitespace |
| Text.ParseInt | app/public.py:58-61 | `int()` succeeds exactly when the text, without the whitespace `int()` skips at its ends, is an optional sign followed by digit groups |
| Text.ParseIntIgnoresPadding | app/auth.py:106-107 | the whitespace `int()` skips at the ends never changes what it reads |
| Text.ParseIntFileSeparator | app/public.py:59 | a leading U+001C, whitespace to `isspace()`, makes `int()` fail |
| Text.ParseIntRoundTrip | app/auth.py:106-107 | `int(str(n)) == n` for every integer, negative ones included |
| Tickets.FindTicket | app/public.py:63 | `query.get(id)` finds a row with that key, and finds none exactly when no row has it |
| Tickets.FindTicketOfMember | app/auth.py:110 | with unique keys, looking up a stored ticket's id finds that ticket |
| Seqs.Filter | app/auth.py:67-82 | a filtered query keeps exactly the rows that pass, each as often as it is stored |
| Seqs.FilterKeepsAll | app/auth.py:67-82 | a filter that every row passes keeps the rows as they are |
| Seqs.Count | app/auth.py:179-187 | no count exceeds the number of rows |
| Seqs.CountZero | app/auth.py:179-187 | a count is zero exactly when no row passes |
| Seqs.CountIsFilterLength | app/auth.py:179-187 | `count()` is the length of the filtered rows |
| Seqs.CountMonotonic | app/auth.py:182-187 | a narrower filter counts no more |
| Seqs.SortDescBy | app/auth.py:84 | `order_by(created_at.desc())` gives a permutation of its input in descending key order |
| Seqs.InsertDescBy | app/auth.py:84 | inserting into a descending sequence keeps it descending and adds exactly the new row |
| Sla.WholeSeconds | app/auth.py:32 | `int(total_seconds())` is the whole seconds truncated toward zero, for gaps of either sign |
| Sla.Duration | app/auth.py:36 | the rendered duration starts with a digit and ends with "m" |
| Sla.SlaText | app/auth.py:23-40 | the text is "—" exactly when no due time is recorded, "Met" exactly when there are a due and a met time (a late response included), and for an unmet ticket it reports a breach exactly when under one whole second is left |
| Sla.HoursMinutesOf | app/auth.py:34-35 | a number of seconds splits into whole hours and the whole minutes left under an hour |
| Sla.CountdownText | app/auth.py:32-36 | at least one second ahead, the text is "{h}h {m}m left", or "{m}m left" exactly when h is 0, for the whole hours and minutes left |
| Sla.OverdueText | app/auth.py:37-40 | past the due time, the text is "Breached " and the same split of the overrun |
| Sla.SubSecondGapText | app/auth.py:32-33 | any gap under one second either way, a slightly future due time included, gives "Breached 0m" |
| Sla.NinetyMinuteExamples | app/auth.py:33-40 | ninety minutes either side of the due time gives "1h 30m left" and "Breached 1h 30m" |
| Public.ResponseHours | app/public.py:11-15 | every window, the default included, is between 1 and 48 hours |
| Public.FirstResponseDue | app/public.py:9-15 | the deadline lies between one and forty-eight hours after the start |
| Public.DueByPriority | app/public.py:9-15 | the due time is the start plus 1, 4, 24 and 48 hours for P1 to P4 |
| Public.DueForUnknownPriority | app/public.py:15 | any other priority gets the 48 hour default |
| Public.DueOrdering | app/public.py:11-15 | the due time strictly increases from P1 to P4 |
| Public.NewTicket | app/public.py:25-34 | a submitted ticket is "Open", unassigned and unanswered, keeps its id, category, priority and creation time, is due at `compute_first_response_due` of its priority from the submission instant, and holds the stripped name, email and description |
| Public.NewTicketTrimmed | app/public.py:27-31 | the name, email and description of a submitted ticket carry no outer whitespace |
| Public.NewTicketCountsDown | app/public.py:33 | at the submission instant the ticket shows its full window in whole hours, "{hours}h 0m left" |
| Public.NormalizeEmail | app/public.py:64 | the normalised email is no longer than the input, holds no upper-case letter, and normalising it again changes nothing |
| Public.PublicComments | app/public.py:66-69 | exactly the ticket's public comments, each as often as it is stored, oldest first |
| Public.CheckStatus | app/public.py:51-69 | a ticket is revealed only for a validated form whose id parses to a non-zero integer naming a stored ticket with a matching stripped, lower-cased email; nothing revealed means no comments; a revealed ticket comes with exactly its public comments, oldest first; with unique keys every matching ticket is revealed |
| Queue.Selected | app/auth.py:64-73 | "unassigned" selects exactly the tickets without an assignee, "mine" those of the agent, "P1".."P4" that priority, and any other selector every ticket |
| Queue.MatchesTerm | app/auth.py:75-82 | the empty term matches every ticket, and a term longer than all four searched fields matches none |
| Queue.MatchesTermIgnoresCase | app/auth.py:76-82 | lower-casing the term does not change which tickets match |
| Queue.Listed | app/auth.py:67-82 | a listed ticket is selected; with no term every selected ticket is listed; a selected ticket that matches the term is listed |
| Queue.QueueTickets | app/auth.py:64-84 | the queue holds exactly the stored tickets that pass the selector and the stripped search term, each as often as stored, newest first |
| Queue.UnassignedSelector | app/auth.py:68-69 | "unassigned" lists exactly the tickets without an assignee |
| Queue.MineSelector | app/auth.py:70-71 | "mine" lists exactly the tickets assigned to the current agent |
| Queue.PrioritySelector | app/auth.py:72-73 | "P1".."P4" lists exactly the tickets of that priority |
| Queue.UnknownSelector | app/auth.py:64-75 | any other selector with a blank search lists every stored ticket, reordered |
| Queue.ExportIdCell | app/auth.py:264 | the id cell reads back as the ticket's id |
| Queue.AssigneeCell | app/auth.py:262 | the assignee cell is the assignee's email, and "" when the ticket is unassigned or the lookup misses; it is always "" or some user's email |
| Queue.FormatCell | app/auth.py:252-253 | an absent timestamp gives "", a present one its formatted text; with a formatter that never yields "", the cell is "" exactly when the timestamp is absent |
| Queue.ExportRow | app/auth.py:261-267 | a row holds the id in decimal, the ticket's own priority, category, requester and status, the assignee cell, the three formatted dates, and the SLA text the queue shows |
| Queue.ExportDateCells | app/auth.py:252-253 | a date cell is "" exactly when its timestamp is absent, for a formatter that never returns "" |
| Queue.ExportCsv | app/auth.py:222-267 | the export writes the eleven-column header and lists exactly the queue's tickets for the same selector, search and agent, then one row per listed ticket, in queue order |
| Queue.WriteRows | app/auth.py:261-267 | the loop writes one row per ticket, the row of the ticket at the same position |
| Dashboard.StartOfDay | app/auth.py:176 | the start of the day is the last UTC midnight at or before the clock |
| Dashboard.RoundHalfEven | app/auth.py:190 | rounding gives the integer nearest to the quotient, the even one on a tie |
| Dashboard.RoundedShareBound | app/auth.py:190 | a share of at most the whole rounds to at most 100 |
| Dashboard.Pct | app/auth.py:189-190 | the percentage is None exactly when the total is 0, otherwise the nearest integer (ties to even), and within 0..100 when the part is at most the total |
| Dashboard.TierOf | app/auth.py:196-205 | a priority's entry has no more met than eligible tickets and no more of either than the whole store; its percentage is absent exactly when it has no eligible ticket, and otherwise within 0..100 |
| Dashboard.MetAtMostTotal | app/auth.py:182-187 | met on time never exceeds eligible, per priority and overall |
| Dashboard.TierAtMostOverall | app/auth.py:196-204 | no priority has more eligible or met tickets than the whole store |
| Dashboard.TiersPartitionTotal | app/auth.py:194-205 | the four priorities hold no more eligible tickets than the overall total, and exactly as many when every priority is one of P1..P4 |
| Dashboard.DeadlineIsInclusive | app/auth.py:186 | a response at exactly the deadline is on time; one microsecond later is not |
| Dashboard.AdminDashboard | app/auth.py:174-205 | the report holds today's, open, eligible and met counts with met at most eligible, the overall percentage, and an entry for each of P1..P4 whose counts are bounded by the overall ones and add up to at most the overall total |
| Dashboard.EmptyStore | app/auth.py:189-192 | with no tickets every count is zero and no percentage is shown |
| Dashboard.ThreeOfFour | app/auth.py:190 | three met out of four eligible is 75 percent |
| Store.NormalizeVisibility | app/auth.py:147 | the stored visibility is "public" or "internal", and it is "internal" exactly when "internal" was submitted |
| Store.NormalizeVisibilityIdempotent | app/auth.py:147 | "public" and "internal" pass through unchanged |
| Store.RecordFirstResponse | app/auth.py:155-156 | a comment changes only the first-response time, never one already set, sets it only for a public reply and then to the posting instant |
| Store.FirstPublicAt | app/auth.py:155-156 | absent exactly when no reply is public, and otherwise the instant of a public reply with no public reply before it |
| Store.FirstResponseIsFirstPublicReply | app/auth.py:155-156 | after any run of comments the first-response time is the one already set, or else the instant of the first public reply, and nothing else changed |
| Store.ReplyOnTime | app/auth.py:155-156 | a public reply to an unanswered ticket counts as on time exactly when it is at or before the deadline; an internal note never does |
| Store.Assign | app/auth.py:112 | assignment sets the assignee to the agent and changes nothing else |
| Store.AssignMovesToMine | app/auth.py:112 | a ticket one has taken shows under "mine" and no longer under "unassigned" |
| Store.HelpDesk.PostComment | app/auth.py:141-158 | an unknown ticket is a 404 and changes nothing; a form that fails validation changes nothing; otherwise the comment, stripped and with normalised visibility, is appended and only that ticket's first-response time may be stamped |
| Store.HelpDesk.AssignToMe | app/auth.py:101-114 | an invalid form, an id that does not parse or names no ticket changes nothing; otherwise only that ticket's assignee becomes the agent; comments never change |

## Left out

- Flask plumbing is not modelled: routing, redirects, templates, sessions, `login_required`, CSRF and the login and logout views. The session's user is a parameter.
- Form validation (`validate_on_submit`) is the boolean parameter `validated`; the WTForms validators in app/forms.py are not modelled.
- Password hashing (`set_password` and `verify_password` over bcrypt) is not modelled.
- `ticket_detail`, `ticket_change_status` and the temporary ticket list view are not modelled.
- The SQLAlchemy session and `commit` are not modelled: the tables are sequences of rows, and the store is one object.
- Text.Contains: `ilike '%term%'` treats `%` and `_` in the term as wildcards; the model matches the term as a plain substring.
- Text.Lower: Unicode case mapping is not modelled; only A-Z are lower-cased.
- Text.ParseInt: non-ASCII decimal digits, which Python's `int()` also accepts, are not modelled.
- Text.IsIntSpace: the whitespace `int()` skips is taken to be the `isspace()` set without U+001C..U+001F; CPython's own tables are not part of this model.
- Dashboard.Pct: the float division and `round` are modelled as exact rational rounding, ties to even. Float error near a tie is not modelled.
- Sla.WholeSeconds: microsecond timestamps are exact; the float in `total_seconds()` is not modelled.
- The clock `datetime.utcnow()` is a parameter `now`. The export uses one `now` for all its rows, where the source reads the clock once per row.
- `created_at` and the ids come from database defaults and are parameters. So the gap from `created_at` to the due time is not the window exactly.
- `updated_at`, the comment ids and the users table are not modelled; the user map of the export is a parameter.
- `strftime("%Y-%m-%d %H:%M")` is an opaque formatter parameter. `csv.writer` quoting and the `StringIO` buffer are not modelled; the export yields the header and the rows as values.
- Seqs.SortDescBy: SQL leaves the order of equal `created_at` values open. The model keeps them in stored order, and its contract promises only what SQL does.
- Queue.QueueTickets: in the "mine" case the source reads `user.id` and fails if the session's user no longer exists; the model takes the agent's id as given.
- Store.HelpDesk.PostComment: the comment's `created_at` and the stamp time are separate parameters, as the source reads the clock once for each.
- app/__init__.py and app/forms.py hold configuration and declarations only; app/models.py gives the record shapes.
