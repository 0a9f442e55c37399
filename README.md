# A verified model of the Telegram image bot's credit ledger

`bot.py` is a Telegram bot that turns a text prompt into an image and charges
the user for it in "stars". Its core is a small ledger kept in two SQLite
tables: `users` (balance, generation counter, last activity) and
`generations` (one row per successful generation). Around the ledger are three
control flows: the text handler charges for a generation and refunds a failed
one; the payment handler credits the amount named in the invoice payload; the
HTTP back-end's JSON answer is searched for a result URL.

This project models that core in Dafny and proves what it guarantees:

- `tables.dfy` (`Tables`): the two tables as a `Database` class. The
  helper functions that read and write them are methods. Each method states
  its complete new state and keeps the invariant `Consistent`: a user's
  counter never exceeds that user's rows.
- `stats.dfy` (`Stats`) and `ranking.dfy` (`Ranking`): the daily report
  and the top-users query, as functions over the tables. `ORDER BY … DESC
  LIMIT n` is modelled as an insertion sort followed by taking a prefix.
- `handlers.dfy` (`Handlers`): the text handler's credit flow and the
  successful-payment handler. Each is a method proved to end in the state
  given by a step function (`TextStep`, `PaymentStep`). The properties of the
  flows are lemmas about those functions: a refund restores the balance, a
  success costs exactly the price and logs exactly one row, and so on.
- `render.dfy` (`Render`): the ordered key search of
  `generate_image_via_http`. It is the looping method `ExtractResult`, proved
  equal to the recursive definition `Extract`, with a lemma that
  characterises exactly when a result is found.
- `delivery.dfy` (`Delivery`): the test that decides between sending a photo
  and sending text, and the preview the administrator receives.
- `text.dfy` (`Text`) and `py_int.dfy` (`PyInt`): the Python string
  operations the bot relies on.
  - `Text` covers `strip`, `lower`, `startswith` and `in`.
  - `PyInt` covers `int()` on a string together with decimal formatting, and
    proves that the two round-trip.
- `wrappers.dfy` (`Wrappers`): `Option`.

Clocks, the network, the translator and Telegram are not modelled.
Timestamps enter as an integer `now`. A generation's outcome is a
parameter (`GenOutcome`). A reply is a value that names the message that
would be sent.

Details of the code that the model keeps, and that are easy to miss:

- `_log_generation_sync` also sets `last_active`.
- `int()` accepts surrounding whitespace, a sign and underscores between
  digits, so `"topup: 1_0 "` credits 10.
- A negative `LIMIT` returns every row.
- `k in data` on a JSON string or list is a substring or element test, and
  the subscript that follows then raises.

## Model

| member | source | states |
|---|---|---|
| Tables.Database.constructor | bot.py:61-90 | `init_db` on a fresh database file: both tables exist and are empty, and the invariant holds; on an existing file the rows are kept, and every method below accepts any database that satisfies `Valid()` |
| Tables.Database.GetUser | bot.py:97-104 | a row is returned exactly when the user exists, and it is that user's stored row |
| Tables.Database.CreateUser | bot.py:106-114 | insert-or-ignore: an existing row is untouched; a new row has balance 0, counter 0 and the given username; generations unchanged |
| Tables.Database.UpdateLastActive | bot.py:116-123 | only an existing row's `last_active` changes |
| Tables.Database.AdjustBalance | bot.py:125-135 | an existing user's balance becomes exactly old + delta and that value is returned; an unknown user gives `None` and no change; no other row changes |
| Tables.Database.LogGeneration | bot.py:137-147 | exactly one row is appended; only that user's counter moves, by 1, and `last_active` is set; balances are untouched; a row for an unknown user is still appended |
| Tables.RowsOfAppend | bot.py:141-144 | appending a row adds one to its owner's row count and nothing to anyone else's |
| Stats.WindowRows | bot.py:153 | a row is in the window exactly when `start <= created_at < end` |
| Stats.DailyCounts | bot.py:149-156 | `total` is the number of rows in the window; `unique` is the number of distinct users among them; `unique <= total`; `unique == 0` exactly when `total == 0` |
| Stats.DailyTopRanked | bot.py:157-158 | the top list has at most 5 entries, is ranked by each user's row count in the window, has no user twice, and never omits a user who outranks a listed one |
| Stats.DailyTopSumAtMostTotal | bot.py:149-159 | the counts of the top list add up to at most `total` |
| Stats.DailyStatsAppend | bot.py:141-142 | logging a row inside the window adds 1 to `total` and 0 or 1 to `unique`; a row outside the window changes nothing in the report |
| Stats.DailyStats | bot.py:149-161 | the report over the rows with `start <= created_at < end`: `unique <= total <= ` the number of rows, and at most 5 top entries |
| Stats.UsersAtMostRows | bot.py:153-156 | there are never more distinct users than rows |
| Stats.TopUsers | bot.py:163-170 | `_get_top_users_sync(limit)` returns `limit` users, or all of them when the limit is negative or larger than the table, in descending order of `total_generations` |
| Stats.TopUsersRanked | bot.py:163-170 | `_get_top_users_sync(limit)` returns at most `limit` users, ranked by `total_generations` in descending order, each with its stored counter; a negative limit returns all users |
| Ranking.Insert | bot.py:157 | inserting keeps the list in descending order and adds exactly that entry |
| Ranking.Sort | bot.py:157 | the result is in descending order of count and is a permutation of the input |
| Ranking.Top | bot.py:157 | `ORDER BY … DESC LIMIT n`: the length is `n`, capped by the row count (all rows when the limit is negative); descending; a sub-multiset of the rows; every row that is left out ranks no higher than any row that is kept |
| Ranking.SortedIds | bot.py:157 | the grouped user ids, each once, in increasing order |
| Ranking.TopRanked | bot.py:157-158 | the ranked answer over a pool of users satisfies `RankedBy`: its size is set by the limit, it is ordered, each entry carries that user's own count, and it is maximal |
| PyInt.ParseInt | bot.py:377 | `int()` succeeds only on a string that holds a decimal digit |
| PyInt.ParseSigned | bot.py:377 | on the stripped text, a parsed value always comes from a string that holds a decimal digit |
| PyInt.FormatInt | bot.py:379 | `str(n)` is non-empty, starts with `-` exactly when `n < 0`, and is otherwise all digits |
| PyInt.FormatNatValue | bot.py:377 | the decimal digits of `n` denote `n` |
| PyInt.ParseFormatRoundTrip | bot.py:377 | `int(str(n)) == n` for every integer, negative ones included (CPython's limit on the number of digits is not modelled; see below) |
| PyInt.ParseNeedsDigit | bot.py:377 | `int()` of a string with no decimal digit raises |
| Text.IsSpace | bot.py:308 | a whitespace character is never a digit, an ASCII letter or `_` |
| Text.Strip | bot.py:308 | `strip()` yields a contiguous slice of the text; it is empty exactly when the text is all whitespace, and otherwise begins and ends with a non-whitespace character |
| Text.StripByIsInfix | bot.py:308 | `strip()` leaves exactly the span between the first and last non-whitespace characters |
| Text.StripByEmpty | bot.py:308-309 | the stripped prompt is empty exactly when the text is all whitespace |
| Text.HasPrefix | bot.py:376 | `s.startswith(p)` means that `s` is `p` followed by the rest of `s` |
| Text.PrefixOfConcat | bot.py:376 | conversely, `p` followed by anything starts with `p` |
| Text.IsInfixAt | bot.py:263 | `p in s` holds exactly when `p` occurs at some index of `s` |
| Text.Lower | bot.py:349 | `lower()` keeps the length, turns each ASCII capital into the matching small letter, leaves no capital behind and changes no other character |
| Text.LowerAppend | bot.py:262 | lowering distributes over concatenation |
| Render.Contains | bot.py:190-191 | `k in data` is decided for an object, a string and a list, and raises for a number, a boolean or null; on a string it holds exactly when `k` occurs in it |
| Render.FirstField | bot.py:194-196 | a value is found exactly when one of the keys is present, and it is the value under the first of the keys that is present |
| Render.Candidate | bot.py:192-205 | a non-empty list whose first element is a string yields that element; one whose first element is an object yields that object's first present URL field; any other list yields nothing; a string yields itself; an object yields its first present URL field, and does so exactly when it has one; a number, a boolean or null yields nothing |
| Render.Scan | bot.py:189-206 | the key loop yields a result only for an object body, and an object body never raises |
| Render.Extract | bot.py:189-207 | a found result belongs to an object body and is what the first usable response key yields; an object body never raises |
| Render.FindField | bot.py:193-196 | the inner key loop returns the value of the first of `url`, `image_url`, `result_url` that is present, or nothing |
| Render.ExtractResult | bot.py:189-207 | the extraction loop, with its early returns, yields exactly `Extract(data)` |
| Render.ExtractFound | bot.py:189-207 | a result `v` is found exactly when the body is an object with a usable key, taken in the order `url`, `result_url`, `image_url`, `output`, `outputs`, where every earlier key is absent or unusable, and `v` is what that first usable key yields |
| Render.ExtractSkipsUnusable | bot.py:192-205 | a key whose value has an unusable shape is passed over, as if it were absent |
| Delivery.LooksLikeImageUrl | bot.py:349-350 | a result taken for an image link starts with `http` in any case and is at least 8 characters long |
| Delivery.ImageUrlByPositions | bot.py:262-263 | the image test holds exactly when the lowered result starts with `http` and an image extension occurs at some index |
| Delivery.ImageUrlIgnoresCase | bot.py:349-350 | the image test ignores the case of ASCII letters |
| Delivery.ImageUrlExtend | bot.py:349-350 | appending anything to an image link keeps it an image link |
| Delivery.Preview | bot.py:266-267 | the preview has at most 1403 characters, agrees with the result on its first 1400, is shorter than 1400 exactly when the result is, and ends in `...` when truncated; a result shorter than 1400 is its own preview |
| Delivery.PreviewFixedPoints | bot.py:267 | the preview equals the result exactly when the result is shorter than 1400, or is 1403 long and ends in `...` |
| Handlers.Enrolled | bot.py:314-315 | after create-then-touch the user exists with the stored (or default) balance and counter and `last_active = now`; nobody else changes |
| Handlers.Credit | bot.py:125-133 | crediting changes only an existing payer's balance, by exactly the amount |
| Handlers.Logged | bot.py:143-144 | the counter update changes only an existing user's counter (by 1) and `last_active` |
| Handlers.NewUserCannotPay | bot.py:67 | a first-time user has balance 0, so is refused any generation with a positive price |
| Handlers.RefundRestores | bot.py:328-340 | the refund undoes the debit exactly |
| Handlers.ChargeStep | bot.py:327-345 | debit, then refund or log: the set of users is unchanged, a result is sent exactly when the generation succeeded, and the user's balance ends lower by the price on success and unchanged on failure |
| Handlers.TextStep | bot.py:303-345 | the text handler adds at most its own user to the users table, and appends exactly one row, for that user and the stripped prompt, when it sends a result, and none otherwise |
| Handlers.TextWithoutPrompt | bot.py:304-311 | with no text, or text that is only whitespace, neither table changes |
| Handlers.TextInsufficient | bot.py:313-325 | below the price the user is still enrolled and touched, but nothing is charged and nothing is logged |
| Handlers.TextFailureRefunds | bot.py:327-342 | a failed generation leaves the balance at its initial value and logs nothing |
| Handlers.TextSuccessCharges | bot.py:327-345 | a successful generation costs exactly the price, bumps the counter by 1, and appends exactly one row, with the user's id and the stripped prompt |
| Handlers.TextOthersUnchanged | bot.py:313-345 | no other user's row or row count changes |
| Handlers.TextKeepsBalanceNonNegative | bot.py:322-342 | whatever the price, a non-negative balance stays non-negative |
| Handlers.TextKeepsConsistent | bot.py:313-345 | the handler keeps every counter within its user's rows |
| Handlers.HandleText | bot.py:303-345 | the handler's sequence of table calls ends in exactly the reply and tables of `TextStep` |
| Handlers.Enrol | bot.py:314-315 | the two enrolment calls leave the users table as `Enrolled` says |
| Handlers.Charge | bot.py:327-345 | debit, then refund or log, as `ChargeStep` says |
| Handlers.AfterFirst | bot.py:377 | `split(":", 1)[1]` is what follows the first `:`, which exists exactly when there is one |
| Handlers.PayloadAmount | bot.py:376-377 | a `topup:` payload names the amount `int()` makes of what follows the prefix |
| Handlers.TopupTail | bot.py:376-377 | after the `topup:` prefix the split yields the rest of the payload |
| Handlers.TopupAmount | bot.py:376-377 | `topup:N` parses to exactly N |
| Handlers.InInt64 | bot.py:378 | the amounts SQLite can bind are the signed 64-bit integers, each at most 20 characters in decimal, sign included |
| Handlers.PaymentStep | bot.py:375-386 | a payment never adds or removes a user; a failure changes nothing; an existing payer gains exactly the amount the reply names, or 1 with the default reply |
| Handlers.TopupCredits | bot.py:376-379 | `topup:N` credits exactly N to an existing payer and replies with N |
| Handlers.OtherPayloadCreditsOne | bot.py:380-383 | any other payload, the empty one included, credits exactly 1 to an existing payer |
| Handlers.BadTopupChangesNothing | bot.py:376-386 | a `topup:` payload whose tail `int()` rejects changes nothing and gets the failure reply |
| Handlers.UnknownPayerNotCredited | bot.py:375-386 | a payer without a row changes nothing, and gets the failure reply only when the amount cannot be parsed or bound |
| Handlers.UnknownPayerStillThanked | bot.py:376-379 | `topup:N` from a payer without a row updates no row, but the success reply with N is still sent |
| Handlers.PaymentOnlyCreditsPayer | bot.py:375-386 | a payment changes at most the payer's balance; it fails exactly when the amount cannot be parsed or bound, and then nothing changes |
| Handlers.Deposit | bot.py:378 | the adjustment as the payment handler uses it |
| Handlers.HandlePayment | bot.py:367-386 | the handler ends in exactly the reply and users table of `PaymentStep` |

## Left out

- Telegram I/O is a value describing which reply would be sent. This covers
  the `/start`, `/balance` and `/top` reply texts, sending photos and
  messages, the pre-checkout answer, and the administrator notification's
  sends.
- The generation back-ends are not modelled: the Replicate client, the
  aiohttp POST and its status check, and the translator. A generation is a
  success-or-failure parameter. Only the JSON shape search is modelled. The
  translated prompt only feeds the back-end, so it does not appear.
- `resp.json()` failing on a body that is not JSON is not modelled, because
  JSON decoding is library code.
- The fallback message `json.dumps(data)[:1500]` is `NoUrl`. The serialised
  text is library output.
- A result found under a URL key that is not a string is not followed into
  the handlers, because `GenOutcome` carries a string. In the source an object
  or a list cannot be bound by the insert that bot.py:345 reaches. The error
  leaves the handler, so the debit of bot.py:328 stays, no row is logged and
  nothing is refunded. A number, a boolean or null is stored and charged. For
  a non-zero number or `true`, the `.lower()` at bot.py:349 raises; bot.py:354
  catches it, so no result message is sent.
- Telegram sends and table calls are assumed never to raise. In the source a
  raise after the debit at bot.py:328, such as a failing reply at bot.py:329,
  leaves the handler with the debit in place, no refund and no logged row.
  TextFailureRefunds and TextSuccessCharges, and `TextStep` itself, do not
  cover that path.
- `db_run` and `asyncio.to_thread`, connections and commits are not
  modelled. The model is sequential, so races between concurrent handlers
  are out of scope.
- Each clock read is one integer `now` per handler run. The ISO-8601 strings
  and the Moscow-day window of `daily_report_job` are not modelled. Those are
  clock and datetime-library work.
- The "no row" branch of the text handler (bot.py:317-319) cannot be reached
  in the model, because the row has just been created. A `NULL` balance
  (bot.py:323) cannot arise either.
- Handlers.HandlePayment: sqlite3's `OverflowError` for an amount outside
  64 bits is modelled. SQLite turning a sum that overflows `balance + delta`
  into a REAL is not, and balances are unbounded integers.
- PyInt.ParseInt: Unicode decimal digits other than ASCII `0`-`9` are not
  accepted. Python's `int()` accepts them.
- PyInt.ParseInt: the limit that CPython 3.11 (and the 3.7.14, 3.8.14,
  3.9.14 and 3.10.7 security releases) puts on `int()` is not modelled.
  Those versions raise `ValueError` on more than 4300 decimal digits,
  leading zeros included, and `str(n)` raises for such an `n`. So
  ParseFormatRoundTrip holds as stated only without that limit. A tail such
  as 4300 zeros followed by `5` fails in the source but credits 5 in the
  model. The handler cannot meet such a payload, because Telegram caps an
  invoice payload at 128 bytes.
- Text.Lower: only ASCII letters are lowered. Every string the image test
  looks for is ASCII.
- Ranking.Top: SQL leaves the order of tied counts unspecified. The model
  keeps tied rows in the order it is given them. The tops behind `/top` and
  the daily report feed it rows by ascending user id (`SortedIds`), so their
  ties come out by ascending id. No contract depends on that choice.
- A `None` username is stored as the empty string, as the handlers pass it
  (`user.username or ""`).
- Deployment glue is not modelled: environment configuration, job
  scheduling and the webhook setup.
