# Fortune of the Red Dragon — event economy model

`bot.py` runs a Chinese New Year event on a Discord server. Players submit
a screenshot for a quest day, staff approve or reject it with buttons, an
approval grants one red envelope, and `/event open` spends an envelope on a
weighted draw of fortune points (with a rare "dragon mark"). A leaderboard
ranks players by points.

This project models the economy underneath the Discord glue:

- `ledger.dfy` — module `Ledger`: the users table as a map from user id to
  `(envelopes, points, dragon)`, with the lazily created zero row
  (`ensure_user`), the credit (`add_envelopes`) and the two updates of the
  guarded debit (`consume_envelope_and_award`) as functions from the table
  before to the table after.
- `submissions.dfy` — module `Submissions`: the submissions table as a
  sequence in insertion order, statuses `PENDING`/`APPROVED`/`REJECTED`, the
  lookup by id, the status update, the count of active rows per (user, day),
  and the invariants "row i has id i + 1" (AUTOINCREMENT, no deletes) and
  "at most one PENDING or APPROVED row per (user, day)".
- `store.dfy` — module `Store`: class `EventDb` holding both tables as
  fields. `add_envelopes`, `get_user_stats`, `consume_envelope_and_award`,
  `set_submission_status`, `get_submission`, `user_already_submitted_day`
  and `insert_submission` are its methods, which read or update the fields
  in place and are specified by the functions above. `ensure_user` is the
  function `Ledger.WithUser` those methods apply, and `top_leaderboard`,
  which only reads, is the function `Leaderboard.Top`.
- `tiers.dfy` — module `Tiers`: the `TIERS` table, the weighted pick as a
  function of a roll `0 <= r < 100`, and the dragon test on the tier name.
- `leaderboard.dfy` — module `Leaderboard`: `top_leaderboard`'s ORDER BY and
  LIMIT as a scan in user id order, an insertion sort and a cut.
- `review.dfy` — module `Review`: `staff_check` and the decision logic of
  the approve and reject buttons of `ReviewView`.
- `commands.dfy` — module `Commands`: class `EventCommands` holding the
  per-user `open_cooldowns` map, with `/event submit` and `/event open`.

Every helper opens its own SQLite connection, and Python's `sqlite3` keeps
only what a helper commits. `get_user_stats` (bot.py:89-94) and the refusing
path of `consume_envelope_and_award` (bot.py:102-103) run `ensure_user`'s
INSERT but return before any commit, so the zero row they create is rolled
back when the connection closes. The model therefore has them leave the
tables as they were. Only `add_envelopes` persists a new user row: a debit
succeeds only for a user whose row already exists and holds an envelope.

Time is an integer parameter `now`, so the wait `int(10 - (now - last))`
is exact. The random pick is a parameter `roll`: the tier chosen is the
first one whose running total of weights exceeds the roll, which is how
`random.choices` maps a uniform draw onto cumulative weights. The tier
names are modelled with the coloured-circle emoji they begin with.

## Model

| member | source | states |
|---|---|---|
| Ledger.WithUser | bot.py:77-81 | `ensure_user` adds a zero row only for an absent user; every existing row is untouched; non-negative balances stay non-negative |
| Ledger.Credited | bot.py:83-87 | the row exists afterwards, its envelopes rise by exactly `amount`, its points and dragon marks are unchanged, no other user's row changes |
| Store.EventDb.AddEnvelopes | bot.py:83-87 | the users table becomes `Credited(old, user, amount)`; submissions unchanged |
| Store.EventDb.GetUserStats | bot.py:89-94 | returns the user's row, or zeros for a user with no row; changes nothing (the ensured row is never committed); non-negative on a valid database |
| Ledger.Awarded | bot.py:105-110 | exactly one envelope off, exactly `points` on, one dragon mark more iff `isDragon`, other users untouched; balances stay non-negative when the guard held |
| Store.EventDb.ConsumeEnvelopeAndAward | bot.py:96-110 | returns true iff the user holds an envelope; on false the users table is unchanged, on true it is `Awarded(old, ...)` |
| Ledger.ApproveThenOpen | bot.py:83-110 | after an approval's credit the debit's guard passes, and the user ends with the envelopes they started with plus the tier's points and dragon mark |
| Submissions.Find | bot.py:117-123 | returns a row carrying the id, or none exactly when no row carries it |
| Submissions.FindNumbered | bot.py:117-123 | in a well-numbered table the submission with id `k` is row `k - 1`, and ids outside 1..n find nothing |
| Store.EventDb.GetSubmission | bot.py:117-123 | returns `Find` of the table: a row with the id, or none iff no row has it |
| Submissions.WithStatus | bot.py:112-115 | same length; the rows with the id take the new status and every other row is unchanged |
| Store.EventDb.SetSubmissionStatus | bot.py:112-115 | the submissions table becomes `WithStatus(old, id, status)`; users unchanged |
| Submissions.StatusKeepsIds | bot.py:112-115 | the status update moves no id, so the table stays well numbered |
| Submissions.FindAfterStatus | bot.py:190 | reading a submission back after the update gives it with the new status, so a reviewed submission is no longer PENDING |
| Submissions.CountActive | bot.py:125-132 | the count of PENDING or APPROVED rows of (user, day) is positive iff such a row exists |
| Submissions.CountAtMostOne | bot.py:125-132 | under the one-active-per-day invariant that count is 0 or 1 |
| Store.EventDb.UserAlreadySubmittedDay | bot.py:125-132 | true iff some row of the user for that day is PENDING or APPROVED; a REJECTED row does not count |
| Store.EventDb.InsertSubmission | bot.py:134-143 | appends one PENDING row and returns its id, `n + 1`, which no earlier row has; ids stay well numbered; users unchanged |
| Commands.EventCommands.constructor | bot.py:47 | the open cooldowns start empty, so every user's last attempt reads as 0, and the commands work on the given database |
| Review.ReviewView.constructor | bot.py:169-171 | a view remembers the id of the submission it reviews |
| Store.EventDb.constructor | bot.py:52-75 | a fresh database has both tables empty and satisfies the invariants |
| Submissions.AppendKeepsOneActive | bot.py:250-252 | appending a row for a (user, day) with no active row keeps at most one active row per (user, day) |
| Submissions.ReviewKeepsOneActive | bot.py:201-205 | re-statusing rows that were active keeps at most one active row per (user, day) |
| Tiers.TierTable | bot.py:31-36 | the weights add up to 100, with running totals 55, 85 and 97 |
| Tiers.Choose | bot.py:303 | the chosen index is a tier, and the roll lies in that tier's slice `[CumWeight(i), CumWeight(i + 1))` |
| Tiers.ChooseIff | bot.py:303 | tier `i` is chosen iff the roll lies in its slice |
| Tiers.RollsPerTier | bot.py:299-303 | exactly `weight` of the `TotalWeight` equally likely rolls choose tier `i`, so each tier is drawn with probability weight / total |
| Tiers.TierIsDragon | bot.py:306 | a tier's name starts with the yellow circle iff it is the last tier, Dragon's Favor |
| Tiers.PointsForRoll | bot.py:300-306 | a roll awards 1, 2, 4 or 8 points for rolls in [0,55), [55,85), [85,97), [97,100), and a dragon mark exactly for [97,100) |
| Leaderboard.ScanRows | bot.py:148-149 | the scan holds every user's current row once, in ascending user id order |
| Leaderboard.Sort | bot.py:150 | the result is ordered by points, then dragon marks, then envelopes, all descending, and is a permutation of its input |
| Leaderboard.Insert | bot.py:150 | inserting into an ordered list keeps it ordered and adds exactly that row |
| Leaderboard.Limit | bot.py:151 | keeps the first `limit` rows (all rows for a negative limit, as SQLite does), in order |
| Leaderboard.Top | bot.py:145-153 | `Listing`: at most `limit` rows (all users for a negative limit or a limit of at least the user count), ordered, each a user's current row, no user listed twice |
| Leaderboard.TopLeftOutRankLower | bot.py:145-153 | a user the limit leaves out ranks no higher than every listed user |
| Leaderboard.TieBrokenByDragon | bot.py:150 | users on 10, 10 and 5 points with 1, 2 and 9 dragon marks are listed as the 2-mark user, the 1-mark user, then the 5-point user |
| Leaderboard.ThreeRowsInOrder | bot.py:145-153 | any listing of those three users that meets `Top`'s contract for such a limit is that one |
| Review.HasRole | bot.py:179 | true iff the staff role id is among the member's role ids |
| Review.StaffCheck | bot.py:173-179 | nobody is staff when the staff role id is 0; otherwise exactly a server member holding the role is |
| Review.ReviewView.Approve | bot.py:192-209 | non-staff, a missing submission or a non-PENDING one change nothing and get their reply; otherwise the submitter is credited exactly 1 envelope, only that submission becomes APPROVED, and the invariants hold |
| Review.ReviewView.Reject | bot.py:211-227 | the same refusals; otherwise only that submission becomes REJECTED; the users table never changes |
| Review.ReviewKeepsInvariants | bot.py:197-205 | reviewing a PENDING submission keeps the ids well numbered and at most one active submission per (user, day) |
| Review.ReviewedWasActive | bot.py:197-202 | in a well-numbered table every row with the id of a PENDING submission is active |
| Review.ReviewTwice | bot.py:192-227 | after an approval or rejection, a second click on either button gets "already reviewed" and the tables stay as the first click left them |
| Commands.EventCommands.Submit | bot.py:243-280 | refuses a day outside 1..31, then an already active (user, day), then a non-image proof, each changing nothing; otherwise appends one PENDING row under the fresh id `n + 1` and replies with it; balances never change |
| Commands.EventCommands.Open | bot.py:283-335 | within 10 seconds of the last attempt replies with the wait (positive) and changes nothing; otherwise records `now` before the balance check; with no envelope changes no balance; else the users table becomes `Awarded` with the chosen tier's points and dragon flag |
| Commands.OpenTwice | bot.py:288-293 | a second open less than 10 seconds after one that passed the cooldown replies with the remaining wait (1..10) and leaves the cooldowns and balances as the first left them |

## Left out

- Discord integration: embeds, views and buttons, `finalize_message`'s disabling of the buttons and message edit, `PERSISTENT_VIEWS` and the re-registration of pending views in `on_ready`, command sync and `bot.run`. The status update `finalize_message` ends with is modelled.
- Review.ReviewView.Approve: the model assumes the message edit in `finalize_message` (bot.py:188) succeeds. In the source the envelope is credited and committed first (bot.py:204, 87); if the edit then raises (message deleted, missing permission, HTTP error), the status update at bot.py:190 never runs, the submission stays PENDING with its buttons still enabled, and a further approve click credits a second envelope. `Review.ReviewTwice` holds only when the edit succeeds; the same applies to `Reject`, whose failed edit leaves the submission PENDING with no ledger change.
- `log_ledger` and every reply message: replies are result codes.
- `aiosqlite`, `async`/`await`, `init_db`'s schema statements and the `.env` configuration: the tables are fields of a class, and the staff role id is a parameter.
- The channel-id checks of `submit` and `open` (bot.py:244, 284): they depend on where the command was typed, which the model does not have.
- The attachment is reduced to its content type, with the empty string standing for a missing one; the proof URL is an opaque string.
- `random.choices` is the `roll` parameter and `time.time()` the integer `now`; fractional seconds, and the truncation of a fractional wait by `int()`, are not modelled.
- Commands.EventCommands.Open: its `NoEnvelopesAtDebit` reply needs the balance to change between the read and the debit, which only concurrent commands can do; check-then-act races between concurrent commands or clicks are not modelled.
- The `balance` command (a read of `get_user_stats`) and the `leaderboard` command's formatting of rows, and the flavour text chosen from the tier emoji (bot.py:314-321).
- Leaderboard.Top: SQL leaves the order of rows equal on points, dragon marks and envelopes undefined, and so does `Top`'s contract. The model's insertion sort places each scanned row after the rows it ties with, so such rows come out in descending user id order.
