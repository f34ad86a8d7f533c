# SequoiaBot core, modelled in Dafny

SequoiaBot is a Telegram community bot. Most of it forwards messages to a
database, an AI completion service and the Telegram API. This project models
the parts of `server.js` and `models/UserStats.js` that keep state or
compute something on their own:

- **`/ask` admission** (`rate_limit.dfy`, module `RateLimit`). Each user has a
  list of request timestamps in `rateLimitMap`. A question is admitted only if
  fewer than `MAX_REQUESTS_PER_MINUTE` (5) timestamps are less than one window
  old. On admission the user's list becomes those recent timestamps followed
  by `now` (older ones are dropped at that moment), and the question with its chat id joins the tail of `requestQueue`. A rejected
  question changes nothing. The class `AskDesk` holds both collections. Its
  method `Ask` also covers what the handler checks first: an empty question,
  and a user lookup that finds nobody or fails.
- **The rate-limit bound** (`rate_limit_trace.dfy`, module `RateLimitTrace`).
  One user's requests are replayed through the same admission rule. With a
  clock that never goes back:
  - any six consecutive admissions span at least a full window;
  - at most five admissions fall in any interval one window long;
  - the lazily pruned stored list never forgets a stamp that could still
    count.
- **Onboarding** (`onboarding.dfy`, module `Onboarding`). A session in
  `userStates` starts at step `name` with its creation time. It collects
  name, e-mail and role from three messages. When the user record is saved it
  is deleted; when the save fails it stays at the role step. The class
  `SessionTable` holds the map. `models/UserStats.js` is a fragment of
  top-level code rather than a function: one part creates a session, the
  other deletes a session more than 5 minutes old with the timeout notice as
  the only reply, and its comment says that check belongs in the message
  handler. The handler in `server.js` (`server.js:220-234`) does not contain
  it and nothing in `server.js` creates a session. `SessionTable.Begin` models
  the creating part, and `SessionTable.HandleMessage` places the staleness
  check at the start of the handler, where the fragment's comment puts it.
- **`/users` chunking** (`user_list.dfy`, module `UserList`). A listing longer
  than 4000 characters is sent as consecutive 4000-character slices.
- **Sentiment label and check-in** (`sentiment.dfy`, module `SentimentLabel`).
  The label comes from the sign of the score. A score of -3 or lower triggers
  a check-in reply.
- **Announcement counting** (`announcement.dfy`, module `Announcement`). The
  success and failure counters of `sendAnnouncement`.

Time is in milliseconds, as `Date.now()` gives it. Anything that comes from
outside is a parameter: the clock, the user lookup, the result of saving a
record, the sentiment score and each Telegram send outcome.

Four points about the code itself:
- As written, the bot never starts. The top-level `require` at
  `server.js:13` runs the `models/UserStats.js` fragment when the module
  loads. That is before `global.userStates` exists (`server.js:36`), and
  `telegramId` is undefined there as well. The fragment's first line
  therefore throws, outside any `try`, before any handler is registered.
  The model describes the handlers as they would behave once that import
  is fixed.
- `REQUEST_TIME_WINDOW` is used at `server.js:445` but declared nowhere in
  `server.js`. The model takes it as a positive parameter (`Window`). The
  bot's messages call the limit "per minute", so 60000 ms is the intended
  value. Once the import is fixed, the `/ask` handler would still fail on
  this name. The filter callback is the only place that reads it, and it
  never runs on an empty list. So a user's first `/ask` would be
  admitted, stored and enqueued, and then the undefined
  `processPendingRequests()` at `server.js:460` would throw. Every later
  `/ask` from that user would find a non-empty list and throw inside the
  filter. Both throws would end in the handler's generic error reply.
- The `/ask` handler exempts no one from the limit: `adminIds` is used only
  by `/announce` (`server.js:209`) and `/users` (`server.js:331`). `Ask` has
  no exemption either.
- A queue entry holds only the question and the chat id (`server.js:458`).

## Model

| member | source | states |
|---|---|---|
| `RateLimit.Recent` | server.js:444-445 | The filtered list keeps exactly the stamps less than one window old: each with its full multiplicity, none older, in their original relative order (a subsequence of the stored list). |
| `RateLimit.Admit` | server.js:445-456 | Rejects exactly when at least 5 stamps are still in the window. On admission the new list is the filtered list followed by `now`: at most 5 stamps, all in the window, `now` last. |
| `RateLimit.AskDesk.constructor` | server.js:35-37 | Starts with an empty rate-limit map and an empty queue. |
| `RateLimit.AskDesk.Ask` | server.js:426-458 | An empty question, a missing user or a failed lookup gets its own reply and changes nothing. A rate-limited request changes neither the map nor the queue. An admitted one sets only this user's list, to the `Admit` result, and appends `{userMessage, chatId}` at the queue's tail. Every other user's list is untouched. |
| `RateLimitTrace.RecentTwice` | server.js:445 | Filtering at a time and then at a later time is the same as filtering at the later time. |
| `RateLimitTrace.RecentAppend` | server.js:445 | The window filter distributes over concatenation. |
| `RateLimitTrace.RecentKeepsTail` | server.js:445-447 | If the last stamps are all within the window, the filtered list has at least that many elements. |
| `RateLimitTrace.AdmittedSorted` | server.js:455-456 | With a nondecreasing clock, a user's admitted stamps are nondecreasing and none is later than the last request. |
| `RateLimitTrace.StoredAgreesWithHistory` | server.js:443-456 | With a nondecreasing clock, at any time from the last request on, the stored list and the user's full admission history count the same stamps. Lazy pruning never changes a later decision. |
| `RateLimitTrace.AdmissionsSpreadOut` | server.js:443-456 | With a nondecreasing clock, the k-th admission comes at least one window after the (k-5)-th. |
| `RateLimitTrace.AtMostFivePerWindow` | server.js:443-456 | With a nondecreasing clock, at most 5 of one user's admissions fall in any interval `[a, a + window)`. |
| `RateLimitTrace.BackwardClockBreaksBound` | server.js:443-456 | Without a nondecreasing clock the bound fails. With a 10 ms window, requests at `b` to `b + 4`, then `b + 100`, then `b + 5` are all admitted. That puts six admissions in `[b, b + 10)`. |
| `RateLimitTrace.BackwardClockPrunesTooMuch` | server.js:444-447 | Without a nondecreasing clock pruning changes a decision. After requests at `b` to `b + 4` and `b + 100` with a 10 ms window, a request at `b + 5` sees 1 counting stamp in the stored list but 6 in the full history. |
| `Onboarding.Answer` | server.js:237-270 | The answer is stored in the field of the current step and no other field changes. Answering the name step advances to email and prompts for the e-mail. Answering email advances to role and prompts for the role. Answering role with a failed save keeps the session at role with the save-error reply. The entry is deleted exactly when the role is answered and the save succeeds. The completion then reports the session's name, its e-mail and the new role. The creation time is never reset. |
| `Onboarding.AnswerKeepsWellFormed` | server.js:237-249 | No field of a later step is ever filled in before that step is reached. |
| `Onboarding.FilledFieldsReached` | server.js:237-249 | In such a session, a filled-in field belongs to the current step or an earlier one. |
| `Onboarding.Dialogue` | server.js:237-270 | A fresh session answered three times, with a successful save, prompts for e-mail, then role, then completes with exactly those answers. After a failed save, the next message replaces the role and completes. |
| `Onboarding.SessionTable.constructor` | server.js:36 | `userStates` starts empty. |
| `Onboarding.SessionTable.Begin` | models/UserStats.js:2-5 | The user's entry becomes a new session at step `name` with `createdAt` = now. No other entry changes. |
| `Onboarding.SessionTable.ExpireIfStale` | models/UserStats.js:8-10 | Deletes the entry exactly when it exists and its age is strictly over 300000 ms (an age of exactly 300000 ms is kept). Otherwise, including when there is no session, the map is unchanged. |
| `Onboarding.SessionTable.Advance` | server.js:234-271 | Without a session, nothing changes and the message goes on to the rest of the handler. With one, the entry becomes the session after `Answer`, or is deleted on completion. Only this user's entry changes. |
| `Onboarding.SessionTable.HandleMessage` | models/UserStats.js:7-12 | A stale session is deleted and the timeout notice is the only reply; no answer is stored. Otherwise the message is handled as by `Advance`. |
| `UserList.SplitUserList` | server.js:349-363 | The pieces concatenate back to the listing and none exceeds 4000 characters. A listing of at most 4000 characters is sent as one piece. A longer one becomes at least two pieces, all of exactly 4000 characters except a non-empty last one. |
| `UserList.ChunkingIsUnique` | server.js:351-354 | At most one sequence of pieces has those properties, so the contract of `SplitUserList` fixes its result. |
| `UserList.SingleChunk` | server.js:350-362 | Such a split has a single piece exactly when the listing fits in 4000 characters, and that piece is the whole listing. |
| `SentimentLabel.LabelOf` | server.js:281 | The label is positive iff score > 0, negative iff score < 0 and neutral iff score = 0. |
| `SentimentLabel.Analyse` | server.js:277-296 | The step runs exactly for non-empty text not starting with `/`. It records `LabelOf(score)`. It sends the check-in iff the record was written and score <= -3, so a check-in always comes with a negative label. |
| `Announcement.Delivered` | server.js:102-109 | No more users can succeed than have a usable `telegramId`. |
| `Announcement.SendAnnouncement` | server.js:98-114 | `successCount` is the number of users with a usable id whose send succeeded. `successCount + failCount` is the number of users. Every user without a usable id counts as a failure. |

## Left out

- The queue-draining dispatcher (`processPendingRequests`, called at `server.js:460`) is not defined in `server.js`; it is not part of this model. The queue is modelled only up to the enqueue.
- `callAiApi` (the OpenRouter call with the Hugging Face fallback) is network I/O and is not modelled.
- The work `/ask` does after the enqueue is not modelled: the engagement-points update, the chat log and their error path. These are database writes that do not touch the rate-limit map or the queue.
- `RateLimit.AskDesk.Ask` takes the question already trimmed. JavaScript's `trim` and its whitespace classes are not modelled.
- `RateLimitTrace.AtMostFivePerWindow` holds only for a clock that never goes back. Without that, the bound fails. A request stamped in the future prunes every older stamp, and later requests back in the earlier window are admitted again. `RateLimitTrace.BackwardClockBreaksBound` exhibits this.
- `RateLimitTrace.StoredAgreesWithHistory` likewise needs a clock that never goes back. In the same run, at the seventh request the stored list holds 1 stamp that counts and the full history 6, so pruning turns a rejection into an admission. `RateLimitTrace.BackwardClockPrunesTooMuch` exhibits this.
- `Onboarding.Answer`: the completion reply carries the e-mail and role the session collected. The bot as written does not print them. The `User` schema (`models/User.js:5-12`) declares no `email` or `role` path, so Mongoose's default strict mode drops both from the new record. The sent message then shows them as undefined, and neither is saved.
- The Mongoose schemas, the `User.findOne` lookups and the record saves are external storage. They appear only as their outcomes: `Lookup`, `saved` and `logged`.
- The sentiment score comes from a third-party library. It is an integer input.
- Sending messages, the Markdown formatting and the reply texts are not modelled. Neither are the staggered `setTimeout` sends of the `/users` pieces or the `...` prefix on every piece after the first. The same goes for the 100 ms pause between announcement sends.
- Cron jobs, random prompt and quote selection, `prompts.js`, `motivation.js`, and the `/help`, `/faq`, `/profile` and `/leaderboard` texts are timers, randomness or plain string templates. None of them is modelled.
- The `models/UserStats.js` fragment runs only once, as a side effect of the `require` at `server.js:13`, and there it throws (see above). Nothing calls it per user, and `server.js` destructures a `UserStats` that the fragment never exports. `SessionTable.Begin` models the assignment itself, and `SessionTable.HandleMessage` puts the staleness check where the fragment's comment says it goes.
- `Onboarding.SessionTable.Advance`: answering the role step is one atomic step in the model. In `server.js` the role is written (`server.js:248`), then the handler waits for `newUser.save()` (`server.js:259`) before deleting the entry (`server.js:260`). A second message from the same user during that wait still finds a session at step role: it overwrites the role, saves a second `User`, and if both saves succeed two completions are sent. Interleaving of handlers is not modelled. The `/ask` admission block (`server.js:443-458`) contains no `await`, so modelling `RateLimit.AskDesk.Ask` as one atomic step is exact there.
- `/users` lengths are counted in UTF-16 code units, as JavaScript counts them; one `char` stands for one code unit. A slice that splits a surrogate pair is therefore not distinguished.
