# bot_raffle — a Dafny model of the giveaway bot's core

bot_raffle is a Telegram bot for giveaways. Administrators create a
giveaway, publish it now or schedule it for later, and finally draw its
winners. Users join through a button, and the bot may first check that
they are subscribed to required channels. Each referral raises a user's
chance to win.

This project models the parts of the bot that make decisions, as
immutable data and pure functions:

- **Draw** (`handlers/giveaway.py`): the referral weight and the ticket
  pool built from it. Then the selection loop that picks distinct winners
  for places 1, 2, … until the places or the eligible users run out. Then
  the order of the `draw_winners` steps: look up the giveaway, check the
  participants, save the winners, finish the giveaway. `random.choice` is
  an oracle passed in as a parameter.
- **Store** (`database/models.py`) and **Queries** (`database/queries.py`):
  the SQLite tables become a `Db` value. It holds maps for users and
  giveaways, and sequences, in insertion order, for participant and winner
  rows. Every write is a function that returns the new store or leaves the
  old one unchanged. Modelled writes: registering users, creating, updating
  and deleting giveaways, adding participants with the referral counter,
  saving winners and updating a status. Modelled reads: the sorted
  participant list, the pending-winner lookup, the export's Status column
  and the integer statistics.
- **Scheduler** (`utils/scheduler.py`): delayed publication as a state
  machine. Each asyncio task is a timer with a deadline. `scheduled_tasks`
  is a table from giveaway id to the timer it remembers. The clock is a
  parameter, and a timer fires only when the environment calls `Fire`.
- **Captcha** (`handlers/captcha.py`): session creation with an injected
  category choice and permutation, the 3-wide keyboard, and the
  `verify_captcha` state machine with its three attempts.
- **Joining** (`handlers/user.py`): the subscription fold over an injected
  chat-member lookup, and the guards that decide whether a user may join.
- **Helpers** (`utils/helpers.py`): the referral deep link and its parser,
  and the text listing the winners.
- **Bot** (`main.py`): `/start`, quick giveaway creation, and the
  callback router with its administrator gate.
- **Text**: the parts of Python's `str.split`, `str(int)` and `int(str)`
  that the modules above rely on.

Behaviour of the code worth knowing before reading the model:

- `draw_winners` checks only that the giveaway exists, so a `created`
  or already `finished` giveaway can be drawn again.
- The start-up query of the scheduler skips rows whose publication time
  has passed while the bot was down.
- `publish_giveaway` overwrites whatever status the giveaway has.
- `schedule_giveaway` with a time in the past leaves the row
  `scheduled` with no task to publish it.

## Model

| member | source | states |
|---|---|---|
| Draw.Weight | handlers/giveaway.py:52-61 | Weight is exactly 1.0 with referrals off or no positive referral count. Otherwise it is the smaller of `1 + r·(multiplier − 1)` and the cap: at most each, and equal to one of them. |
| Draw.BonusMonotone | handlers/giveaway.py:58-61 | With a multiplier of at least 1.0, the linear bonus is at least 1.0 and grows with the referral count. |
| Draw.WeightBounds | handlers/giveaway.py:52-61 | With multiplier and cap at least 1.0: every weight lies between 1.0 and the cap, and more referrals never mean a lower weight. |
| Draw.Tickets | handlers/giveaway.py:64 | `int(w·100)` truncates: for non-negative weights, the ticket count is the whole part of `w·100`. A non-positive weight gives no tickets (`range` of a negative count is empty). |
| Draw.PlainWeightIsHundredTickets | handlers/giveaway.py:52-65 | A participant without referrals, or with referrals off, holds exactly 100 tickets. |
| Draw.Repeat | handlers/giveaway.py:64-65 | The inner loop appends the participant exactly `n` times and nothing else. |
| Draw.BuildPool | handlers/giveaway.py:50-65 | The pool holds exactly the participants that have at least one ticket. |
| Draw.PoolAppend | handlers/giveaway.py:50-65 | The pool keeps participant order: the pool of a concatenation is the concatenation of the pools. |
| Draw.PoolCount | handlers/giveaway.py:63-65 | When user ids are distinct, each user has exactly as many pool entries as its participant's ticket count. |
| Draw.AbsentUserHasNoTickets | handlers/giveaway.py:63-65 | A user with no participant row has no pool entry. |
| Draw.PoolUsers | handlers/giveaway.py:63-65 | If every participant holds a ticket, the users in the pool are exactly the participants' users. |
| Draw.PoolHolders | handlers/giveaway.py:50-65 | Every user in the pool is a participant of the giveaway that holds at least one ticket. |
| Draw.EligibleMembers | handlers/giveaway.py:72-75 | The available list holds exactly the pool entries whose user has not won yet. |
| Draw.NoneEligible | handlers/giveaway.py:72-78 | The available list is empty exactly when every user in the pool has already won. |
| Draw.ChosenIsEligible | handlers/giveaway.py:72-80 | The entry `random.choice` returns is a pool entry whose user has not won yet. |
| Draw.FromPoolUser | handlers/giveaway.py:80-86 | A winner entry copied from a pool entry belongs to a user in the pool. |
| Draw.LeftShrinks | handlers/giveaway.py:80-87 | Each round removes exactly one user from those who have not won yet. |
| Draw.DrawsPlaces | handlers/giveaway.py:71-86 | Places continue from the current one with no gaps. |
| Draw.DrawsFresh | handlers/giveaway.py:72-87 | Every winner copies a pool entry whose user had not won before. |
| Draw.DrawsDistinct | handlers/giveaway.py:69-87 | No user wins twice. |
| Draw.DrawsShape | handlers/giveaway.py:69-87 | Consecutive places, fresh users taken from the pool, and pairwise-distinct winners, all at once. |
| Draw.DrawCount | handlers/giveaway.py:71-87 | Exactly `min(places left, users not yet chosen)` winners are drawn. The loop stops early only when every user in the pool has won. |
| Draw.DrawsFromStart | handlers/giveaway.py:68-87 | From the start: at most `prizes_count` winners, with places 1, 2, …, all distinct users of the pool. |
| Draw.SelectionLoop | handlers/giveaway.py:68-87 | The `for place in range(prizes_count)` loop with its early `break` computes the recursive draw. |
| Draw.SelectWinners | handlers/giveaway.py:68-87 | The loop's winners: at most one per prize, places 1, 2, … in list order, distinct users of the pool. |
| Draw.DrawWinners | handlers/giveaway.py:20-93 | Outcomes are decided in source order. Missing giveaway: not found. No participants: no participants. Fewer participants than prizes: "not enough", with the required count. A failing save: save failed, nothing committed. A failing status update after the save: finish failed, with the winners already committed. Only existence is checked, not the status. |
| Draw.ErrorsBeforeAnyDraw | handlers/giveaway.py:27-47 | Every outcome decided before the winners are chosen is the same whatever the random oracle does. |
| Draw.FailedFinishAllowsRedraw | handlers/giveaway.py:89-93 | When the status update raises after the save, the winners stay committed and the giveaway row is unchanged. A second draw then succeeds and appends a second set of winner rows after the first. |
| Draw.DrawnCommits | handlers/giveaway.py:89-93 | A successful draw first saves exactly its winners, then sets only this giveaway to finished with `finished_at`. Nothing else changes. The winners hold places 1, 2, …, are distinct, at most one per prize, and each holds a ticket. |
| Draw.UniqueGivesDistinctUsers | database/models.py:72 | Under the UNIQUE(giveaway_id, user_id) constraint, one giveaway's rows have distinct user ids. |
| Draw.FullDraw | handlers/giveaway.py:43-87 | Under the UNIQUE constraint, if every participant holds a ticket, a successful draw fills every prize. |
| Draw.TwoOfThree | handlers/giveaway.py:20-93 | Example: 2 prizes, 3 participants, no referrals. The draw yields two distinct winners at places 1 and 2, and the giveaway is finished. |
| Draw.NotifyWinners | handlers/giveaway.py:110-129 | Every winner is tried. A failed send is logged and the loop continues, so sent + failed covers every winner. A user counts as sent exactly when the send succeeds. |
| Store.SeedAdmin | database/models.py:92-96 | INSERT OR IGNORE: the first administrator is created with the flag set if absent. An existing row is left as it is. |
| Store.AddUser | database/models.py:100-114 | INSERT OR REPLACE: the row gets the new profile fields, the `ru` default only when the key is missing, and `is_admin` FALSE. Other users and tables are unchanged. |
| Store.AddUserDemotes | database/models.py:100-124 | After `add_user`, an administrator is no longer one. Nobody else's flag changes. |
| Store.AddUserKeepingRole | database/models.py:100-114 | Corrected registration: same profile fields, and every user keeps the administrator flag they had. |
| Store.GiveawaysOfAdmin | database/models.py:153-165 | The giveaways whose `admin_id` is the given administrator, exactly. |
| Store.CreateGiveaway | database/models.py:126-151 | The new row has status `created`, the caller's values or the defaults 1 prize, no cap, referrals and captcha off, and multipliers 1.5 and 5.0. Every other row is unchanged. A clashing id is refused. |
| Store.BumpReferrer | database/models.py:199-205 | Exactly the rows the UPDATE matches gain one referral. All other rows are unchanged. |
| Store.AddParticipant | database/models.py:181-211 | An existing (giveaway, user) pair makes the insert fail, and nothing changes. Otherwise exactly one row is appended, with the given `referred_by` and 0 referrals (1 for a self-referral). Only the referrer's row in the same giveaway is bumped. |
| Store.AddParticipantCount | database/models.py:181-231 | A successful add raises that giveaway's count by exactly one, leaves other giveaways' counts alone, and makes `is_participating` true. |
| Store.AddParticipantKeepsInvariants | database/models.py:181-211 | Adding keeps the UNIQUE constraint and never lowers a referral count. |
| Store.AddParticipantKeepsJoinOrder | database/models.py:181-197 | With a clock that never goes back, rows stay ordered by `joined_at`. |
| Store.Apply | database/models.py:243-249 | One `column = value` clause: the column holds the value, and the row keeps its id, owner and creation time. |
| Store.ApplyKeepsOthers | database/models.py:243-249 | One clause leaves every other column as it was. |
| Store.ApplyAll | database/models.py:240-252 | Every given column holds its value, and every column not named keeps its old value. |
| Store.UpdateGiveaway | database/models.py:233-257 | An empty update is refused and changes nothing. Otherwise it reports success, even for a missing id, and changes exactly the named columns of this giveaway. |
| Store.DeleteGiveaway | database/models.py:259-271 | The giveaway and its participant and winner rows are removed. Every other row stays, and every other giveaway's participant list is unchanged. |
| Queries.SortByJoinSorted | database/queries.py:14-18 | The sort puts rows in `joined_at` order. |
| Queries.SortByJoinPermutes | database/queries.py:14-18 | The sort keeps exactly the rows it is given. |
| Queries.SortSortedIsIdentity | database/queries.py:14-18 | Rows already in join order come back unchanged. |
| Queries.GetParticipants | database/queries.py:11-23 | Exactly the giveaway's rows, as a permutation, sorted by `joined_at`. Their number is the participant count. |
| Queries.GetParticipantsInInsertionOrder | database/queries.py:11-23 | With a clock that never goes back, the result is the giveaway's rows in insertion order. |
| Queries.SaveWinners | database/queries.py:25-33 | One row per winner, in list order, with the same user id and place, uncollected. The old rows come first, and no other table changes. |
| Queries.UpdateGiveawayStatus | database/queries.py:35-43 | The status and `finished_at` are set whatever the previous status or the status written. Every other column and row is unchanged. |
| Queries.StatusUpdateIsGenericUpdate | database/queries.py:35-43 | The status update equals `update_giveaway` of its two columns. |
| Queries.LatestPending | database/queries.py:48-54 | The returned row is pending and no pending row is later. Nothing is returned exactly when no row is pending. |
| Queries.GetWinnerInfo | database/queries.py:45-61 | The user's most recently selected uncollected winner row whose giveaway exists, with that giveaway's name. None exactly when there is no such row. |
| Queries.ExportParticipants | database/queries.py:63-85 | One row per participant, in `get_participants` order. Status is `Active` exactly when a username is stored. NULL name and username become `''`. |
| Queries.FinishedOfAdmin | database/queries.py:97-101 | The finished giveaways are among the administrator's giveaways, and each has status `finished`. |
| Queries.Statistics | database/queries.py:91-128 | Total counts the administrator's giveaways, and finished is at most total. Active counts exactly the giveaways that are not finished. The participant count is the number of distinct users over the rows the JOIN keeps. It is at most the number of those rows. Under UNIQUE(giveaway_id, user_id) it is at least the participant count of each of the administrator's giveaways. |
| Queries.ActiveIsNotFinished | database/queries.py:124-128 | Every giveaway of the administrator is either finished or active, never both, so total minus finished is the number of non-finished giveaways. |
| Queries.DistinctNoMoreThanRows | database/queries.py:104-110 | `COUNT(DISTINCT user_id)` over some rows is at most the number of rows. |
| Queries.UniqueRowsDistinctUsers | database/models.py:72 | Under UNIQUE(giveaway_id, user_id), a giveaway has as many distinct users as participant rows. |
| Queries.EachGiveawayCounted | database/queries.py:104-110 | Under UNIQUE(giveaway_id, user_id), the distinct count over the administrator's giveaways is at least the participant count of each of them. |
| Scheduler.Init | utils/scheduler.py:12-16 | A new scheduler has no tasks and is not running. |
| Scheduler.MarkPublished | utils/scheduler.py:101-110 | Sets `published` and `published_at` whatever the current status. Nothing else changes, and a missing giveaway changes nothing. |
| Scheduler.Arm | utils/scheduler.py:75-80 | A task is created only for a future time. Its entry overwrites the table entry for the giveaway without cancelling the old task. |
| Scheduler.CancelTimer | utils/scheduler.py:131-133 | `task.cancel()` cancels only a pending task. Every other task is unchanged. |
| Scheduler.Load | utils/scheduler.py:40-61 | The table gains entries for exactly the listed rows that are scheduled with a future time. |
| Scheduler.LoadWellFormed | utils/scheduler.py:51-61 | Restoring keeps every table entry pointing at a timer of its own giveaway. |
| Scheduler.LoadArmsPending | utils/scheduler.py:51-61 | Every restored entry is a pending timer whose deadline is the stored time. |
| Scheduler.Start | utils/scheduler.py:18-23 | The scheduler is running, with the due giveaways restored. |
| Scheduler.StartRestoresDue | utils/scheduler.py:40-61 | Started fresh, the scheduler holds a pending task for exactly the scheduled future giveaways, each due at its stored time. Past-due ones are skipped. |
| Scheduler.Schedule | utils/scheduler.py:63-82 | Only the row of `g` changes, and only its status (`scheduled`) and time, even when that time is past. Users, participants, winners and other giveaways are untouched. For a future time exactly one pending task for `g` is appended and remembered under `g`, other entries kept. For a past time no task is created and the table is unchanged. |
| Scheduler.Fire | utils/scheduler.py:84-94 | A pending timer whose deadline has come publishes its giveaway unconditionally. It then deletes the giveaway's table entry, whichever task that entry remembers. |
| Scheduler.Cancel | utils/scheduler.py:129-142 | The remembered task is cancelled and forgotten, other entries and tasks kept. Only the row of `g` changes, to `created` with no time, even if it was already published. Users, participants, winners and other giveaways are untouched. |
| Scheduler.CancelAll | utils/scheduler.py:34-35 | Exactly the listed pending tasks are cancelled. |
| Scheduler.Stop | utils/scheduler.py:29-38 | The scheduler is not running and the table is empty. Every remembered task is no longer pending, and no other task is touched. |
| Scheduler.StopLeavesNothingPending | utils/scheduler.py:29-38 | If every pending task is in the table, no task is pending after `stop`. |
| Scheduler.Reap | utils/scheduler.py:146-160 | While running, a pass removes exactly the entries whose task is done. Once stopped, the loop has ended. |
| Scheduler.ReapKeepsNoOrphans | utils/scheduler.py:153-160 | Reaping keeps every pending task in the table. |
| Scheduler.FireKeepsNoOrphans | utils/scheduler.py:84-94 | Firing keeps every pending task in the table. |
| Scheduler.CancelKeepsNoOrphans | utils/scheduler.py:129-142 | Cancelling keeps every pending task in the table. |
| Scheduler.RescheduleThenCancelStillPublishes | utils/scheduler.py:77-80 | Scheduling a giveaway twice leaves the first task unremembered. After cancellation, that task still fires and publishes the cancelled giveaway. |
| Scheduler.ScheduleFixed | utils/scheduler.py:63-82 | Corrected scheduling: the task remembered for `g` is no longer pending afterwards, and every other task is unchanged. The old entry is replaced by the new task for a future time, or dropped for a past time. The row effects are those of `schedule_giveaway`. |
| Scheduler.ScheduleFixedKeepsNoOrphans | utils/scheduler.py:63-82 | Corrected scheduling keeps every pending task in the table. |
| Scheduler.RescheduleFixedThenCancelIsSilent | utils/scheduler.py:63-82 | The same schedule, reschedule and cancel sequence with the corrected scheduling: every pending task stays in the table, and after the cancellation no task of the giveaway can fire at any time. |
| Scheduler.CancelSilencesGiveaway | utils/scheduler.py:129-133 | If every pending task is in the table, no task of a cancelled giveaway is left pending. |
| Captcha.CategoriesWellShaped | handlers/captcha.py:12-18 | Every category has six images; the last repeats the first and the four between differ from it. |
| Captcha.CorrectImageTwice | handlers/captcha.py:12-18 | The correct image occurs exactly twice in its category. |
| Captcha.Shuffle | handlers/captcha.py:34 | The Fisher–Yates shuffle, with the draws supplied as a parameter, returns a permutation of its input. |
| Captcha.IndexOf | handlers/captcha.py:37 | `list.index` returns the first position of the value. |
| Captcha.GenerateCaptcha | handlers/captcha.py:24-50 | The new session replaces any previous one for the user, with 0 attempts and a maximum of 3. Its images are a permutation of the category, and its answer is the first position of the category's first image. |
| Captcha.SecondCopyRejected | handlers/captcha.py:31-37 | Because the correct image appears twice, a later position shows the same image but is not the accepted answer. |
| Captcha.Buttons | handlers/captcha.py:57-61 | Button `i` shows image `i` and carries `captcha_{captcha_id}_{i}`. |
| Captcha.Rows | handlers/captcha.py:54-68 | Rows hold 1 to 3 items, all but the last exactly 3. There are ⌈n/3⌉ rows, and together they list the items in order. |
| Captcha.CaptchaKeyboard | handlers/captcha.py:52-70 | The keyboard lists every button in order, in rows of 3 with a shorter last row. |
| Captcha.ParseAnswer | handlers/captcha.py:96-104 | Bad shape exactly when the data is not 4 fields or the first is not `captcha`. Otherwise the user id and position are the `int()` of fields 1 and 3, and the giveaway id is field 2. |
| Captcha.CallbackRoundTrip | handlers/captcha.py:97-104 | Built from `u_g` (g without `_`) and index i, the callback parses back to (u, g, i). |
| Captcha.VerifyCaptcha | handlers/captcha.py:94-135 | Malformed or unparseable data, or no session, changes nothing. The right position passes and removes the session. A wrong one adds an attempt, ending the session at the maximum or else reporting the remaining count. |
| Captcha.GiveawayFieldIgnored | handlers/captcha.py:102-110 | The verdict does not depend on the giveaway field of the callback. |
| Captcha.WrongAnswers | handlers/captcha.py:119-135 | From a fresh session, three wrong answers give 2 left, then 1 left, then exhausted with the session removed. |
| Captcha.ThreeStrikes | handlers/captcha.py:113-135 | After `generate_captcha`, the same wrong button pressed three times ends the session. |
| Joining.Unsubscribed | handlers/user.py:146-155 | A channel is listed exactly when it is blocked (`left`, `kicked`, or the lookup raised). |
| Joining.CheckSubscriptions | handlers/user.py:141-160 | `unsubscribed` lists exactly the blocked channels in input order. `all_subscribed` holds exactly when none is blocked, that is, when the list is empty. |
| Joining.GiveawayIdOf | handlers/user.py:46 | The second `_`-field exists exactly when the data contains `_`. |
| Joining.Participate | handlers/user.py:45-104 | The guards apply in order: bad data, missing giveaway, not published, already participating, unsubscribed channels. Each leaves the store unchanged. After all of them, the participant is added with the session's `referred_by` and its number is the new count. |
| Joining.CaptchaFlagIgnored | handlers/user.py:86-89 | The captcha flag does not change the outcome of joining. |
| Joining.JoinTwice | handlers/user.py:60-66 | After a successful join, pressing the button again is turned away with nothing changed. |
| Helpers.GenerateReferralLink | utils/helpers.py:84-86 | The link is `https://t.me/<bot>?start=` followed by `ref_<giveaway>_<user>`. |
| Helpers.ParseReferralLink | utils/helpers.py:108-123 | A result comes back exactly when the parameter starts with `ref_`, splits into 3 fields, and its third field is an integer. Its fields are then the second and third. |
| Helpers.ReferralRoundTrip | utils/helpers.py:108-121 | For a giveaway id without `_`, the parameter of a generated link parses back to that giveaway and user. |
| Helpers.WinnerLine | utils/helpers.py:96-103 | A line is `place. name`, then `(@username)` if a username is set or `(ID: id)` otherwise, then a newline. |
| Helpers.FormatWinnersList | utils/helpers.py:89-105 | An empty list gives "Нет победителей" and only an empty list does. Otherwise the text is the header followed by the winners' lines. |
| Helpers.WinnerLinesAppend | utils/helpers.py:96-103 | Lines follow the winners' order. |
| Helpers.WinnerLineIsOneLine | utils/helpers.py:100-103 | A winner whose name and username have no newline takes exactly one line. |
| Helpers.LineCount | utils/helpers.py:96-103 | One line per winner. |
| Bot.StartCommand | main.py:29-51 | `/start` registers the user through `add_user`, and shows the admin menu exactly when the stored flag is set afterwards. |
| Bot.StartNeverShowsAdminMenu | main.py:36-51 | As written, `/start` never shows the admin menu. |
| Bot.SeededAdminDemoted | main.py:36-49 | The seeded administrator starts with the flag set, but after their first `/start` they see the user menu and have lost the flag. |
| Bot.StartCommandKeepingRole | main.py:29-51 | Corrected `/start`: it shows the admin menu exactly to users who were administrators. |
| Bot.SeededAdminKeepsMenu | main.py:44-49 | With the corrected registration, the seeded administrator gets the admin menu. |
| Bot.QuickCreate | main.py:57-74 | Non-administrators are refused. A new giveaway is named `Розыгрыш #` plus one more than the administrator's giveaway count, and has 1 prize and status `created`. |
| Bot.QuickNamesCount | main.py:68-74 | Each quick creation raises the administrator's giveaway count, which the next name uses, by one. |
| Bot.FirstMatch | main.py:122-142 | The first branch whose test holds, or none when no branch matches. |
| Bot.Dispatch | main.py:122-142 | The handler of the first branch whose test holds, no earlier branch matching, or "in development" exactly when no branch matches. |
| Bot.CallbackQuery | main.py:106-142 | Refused exactly when the data starts with an admin prefix and the user is not an administrator. Otherwise the query is routed. |
| Bot.InstantPublishUnreachable | main.py:133-136 | With the branches as written, no callback data reaches `instant_publish`. |
| Bot.InstantButtonOpensMenu | main.py:133-134 | As written, the administrator's `publish_instant_…` button opens the publish menu. |
| Bot.InstantPublishReachableFixed | main.py:131-136 | With the longer prefix checked first, the button reaches `instant_publish`. |
| Bot.FixedAgreesElsewhere | main.py:123-142 | Reordering changes nothing for data that does not start with `publish_instant_`. |
| Bot.ParticipateOpenToAll | main.py:107-138 | `participate_…` is not gated and reaches `participate_in_giveaway` for every user. |
| Bot.NavigationOpenToAll | main.py:107-130 | `giveaway_nav_…` is not gated and reaches `navigate_giveaways` for every user. |
| Bot.DrawNeedsAdmin | main.py:107-120 | `draw_…` from a non-administrator is refused. |
| Text.SplitFields | handlers/user.py:46 | `split('_')` gives at least two fields exactly when the text contains `_`. |
| Text.SplitJoin | utils/helpers.py:114-116 | Splitting `_`-joined fields that contain no `_` gives the fields back. |
| Text.IntRoundTrip | utils/helpers.py:120 | `int(str(i)) == i`. |

## Left out

- SQLite, aiosqlite and SQL text: the store is a value, and every call either commits entirely or changes nothing.
- asyncio: task creation, `sleep`, cancellation races and the timing of the background loop. A timer fires only when `Scheduler.Fire` is called, and a pass of the loop is `Scheduler.Reap`.
- Telegram calls: message texts, Markdown, `answer`/`edit_message_text`, and the keyboards of `keyboards/`. `get_chat_member` becomes the `lookup` parameter, and a send in `notify_winners` becomes the `delivers` parameter.
- `random`: `random.choice` is the `pick` parameter, the category choice is a `choice` index, and `random.shuffle` is Fisher–Yates with the draws supplied as a parameter (`below`).
- `uuid.uuid4()` and the clock: the new id and "now" are parameters.
- `handlers/admin.py`, `handlers/export.py`, `handlers/media.py`, `config/settings.py`, `run.py`, `minimal_bot.py`: rendering, file export, file I/O, environment reading and start-up. `handlers/admin.py` and `keyboards/inline.py` are only named as handlers that the router reaches.
- `format_giveaway_info`'s date parsing, and the rounded average of `get_statistics`.
- The `draw_<id>` and `participate_<id>` parsing before a draw: `Draw.DrawWinners` takes the giveaway id directly.
- Draw.Weight: weights and tickets use exact reals, not binary floating point. `int(w*100)` can differ by one ticket where the float product falls just below a whole number.
- Text.ParseInt: accepts ASCII whitespace, an optional sign and ASCII digits only. Python's `int()` also accepts other Unicode digits and `_` between digits. No field that reaches it can contain `_`, because it has already been split on `_`.
- Queries.GetParticipants: SQLite does not fix an order among equal `joined_at` values; the model keeps insertion order there.
- Helpers.NameText: a missing `first_name` key, which would print the default `Пользователь`, is not modelled. Winners always carry the key, and a `None` value prints as `None`.
- Joining.Participate: `add_participant` can also fail on a database error. The model has no such error, so after the guards registration never fails.
- Captcha.VerifyCaptcha: an `int()` failure on a field is the `Raised` verdict; in the source, the exception escapes the handler.
- Scheduler.Fire: the admin notification after publication is left out, and only the status effect is modelled.
- Scheduler.Schedule: every database step of the scheduler goes through `self.db.get_db_connection()`, which `DatabaseManager` does not define, and nothing constructs `GiveawayScheduler`. As written, each of those steps would raise `AttributeError`: `schedule_giveaway` before its overwrite of the task table, and `publish_giveaway` inside its own `try`. The model assumes a connection helper that opens the same database, as the rest of the code does with `aiosqlite.connect(db_path)`.
- Scheduler.Load: one integer clock stands for both of the source's clocks. The start-up query compares the stored local ISO time, separated by `T`, as text against SQLite's UTC `datetime('now')`. The task's delay uses local `datetime.now()`. `Due` merges the two into one comparison, so the model restores some rows that the text comparison would skip. One case is a server behind UTC in the evening: UTC "now" has already reached the next calendar date, so a row due later that local evening compares as past and is skipped.
- Store.UpdateGiveaway: the update is a typed list of known columns. An unknown key, or any SQL error, makes the source return `False`; the model has no such case. The one caller, in `handlers/admin.py`, passes only valid columns.
- Draw.DrawWinners: an exception in `save_winners` or in `update_giveaway_status` is a flag, not a database condition; the message texts that follow a successful draw are left out.
- Bot.CallbackQuery: `admin_menu` is not an admin prefix, so any user reaches the admin start screen. The model keeps this behaviour and states no property about it.

## Findings

| source | as written | input that shows it | evidently intended | confidence | as-written member | corrected member |
|---|---|---|---|---|---|---|
| database/models.py:100-113 | `add_user` runs INSERT OR REPLACE without `is_admin`, so the column falls back to FALSE on every `/start` | the seeded administrator sends `/start` | `/start` refreshes the profile and keeps the administrator flag | not executed | Bot.SeededAdminDemoted | Bot.SeededAdminKeepsMenu |
| main.py:133-136 | `startswith('publish_')` is checked before `startswith('publish_instant_')` | an administrator presses a `publish_instant_<id>` button | the instant button reaches `instant_publish` | not executed | Bot.InstantPublishUnreachable | Bot.InstantPublishReachableFixed |
| utils/scheduler.py:77-80 | rescheduling overwrites the table entry without cancelling the task it held | schedule at t=100, reschedule at t=200, cancel; at t=100 the first task still fires | a giveaway has at most one live task, so cancelling silences it | not executed; assumes a working `get_db_connection`, which the source does not define (see Scheduler.Schedule under Left out) | Scheduler.RescheduleThenCancelStillPublishes | Scheduler.RescheduleFixedThenCancelIsSilent |
