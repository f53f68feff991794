# AWS What's New → Slack notifier, modelled in Dafny

`notifier.py` is an AWS Lambda function. On each invocation it:

- reads the AWS "What's New" RSS feed;
- keeps the entries published within the last 24 hours;
- posts one Slack message per kept entry, or a single "no news" message that shows the threshold when nothing was kept;
- answers with a summary: the count, the threshold shown in JST (UTC+9), a success/failure tally of the sends, and the items.

This project models that logic and proves properties about it.

Modules, in dependency order:

- `Wrappers`: `Option` and `Result`. `Raised` stands for an exception escaping a function.
- `Faults`: the exceptions that can reach the handler's top-level `except`.
- `Sequences`: `FilterMap`, an order-preserving filter-and-map over a sequence. It is the shape of `get_recent_news`'s loop.
- `Calendar`: Python's `datetime` value range.
  - An instant is an integer count of microseconds since 0001-01-01 00:00:00, for years 1 to 9999.
  - It is converted to and from civil fields (year, month, day, hour, minute, second, microsecond).
  - Round trips are proved in both directions.
  - `Construct` is `datetime(y, m, d, H, M, S)`, including its `ValueError` on invalid fields.
- `Display`: the `'%Y-%m-%d %H:%M:%S JST'` display and `str` of a count. Each comes with a reader that undoes it.
- `Clock`:
  - `datetime` values with an optional fixed offset;
  - `utc_to_jst`;
  - `get_24_hours_ago`, with `datetime.now()` passed in;
  - `strftime` on a datetime.

  Leaving years 1..9999 raises `OverflowError`, modelled as `None`.
- `Feed`: `get_recent_news`.
  - The loop body for one entry is a function, `Process`.
  - The loop is a method proved against `Recent`, the `FilterMap` of `Process` over the entries.
- `Strings`: `str.join` and `str.split` on `", "`, and taking a known prefix and suffix off a string.
- `Slack`:
  - the two messages as Slack blocks, each with a reader;
  - the send, whose HTTP exchange is reduced to the reply (a status, or an exception).
- `Handler`: `lambda_handler`.
  - The handler is a method.
  - The send loop is a method with a loop invariant.
  - The response is a success body or the error response.

Two details of the code that the model keeps as they are:

- `get_24_hours_ago()`, and with it `datetime.now()`, is called separately in three places:
  - inside `get_recent_news` (notifier.py:49);
  - for the no-news message (notifier.py:238);
  - for the response (notifier.py:259).

  The model takes three clock readings (`Handler.Readings`) and ties each threshold to its own reading.
- The threshold is the naive local `datetime.now()` minus 24 hours (notifier.py:33). It is compared with the feed's naive UTC timestamps (notifier.py:57, 63). The model compares the two as plain wall-clock values, as the code does.

## Model

| member | source | states |
|---|---|---|
| Calendar.Construct | notifier.py:57 | `datetime(*published_parsed[:6])` succeeds exactly when the six fields form a valid date and time in years 1..9999. The instant it yields is a whole number of seconds, and its fields read back as the given ones. |
| Calendar.FromCivilInverse | notifier.py:57 | Building an instant from valid fields and reading its fields back gives the same fields. |
| Calendar.ToCivilInverse | notifier.py:67 | Reading an instant's fields and building an instant from them gives the same instant. |
| Calendar.WholeSeconds | notifier.py:57 | Fields with zero microseconds denote a whole number of seconds. |
| Calendar.WholeSecondsFields | notifier.py:67 | An instant that is a whole number of seconds has zero microseconds in its fields. |
| Display.DecimalString | notifier.py:265 | `str(count)` is all decimal digits, denotes the count, and has no leading zero. Its length is the count's decimal width, so `str(0)` is one digit, `0`. |
| Display.DigitsRoundTrip | notifier.py:67 | A zero-padded field written in enough digits reads back as the number. |
| Display.TripleRoundTrip | notifier.py:67 | `%Y-%m-%d` and `%H:%M:%S` each read back as their three numbers. |
| Display.Strftime | notifier.py:67 | The display of a datetime's fields is 23 characters long. `Display.StrftimeRoundTrip` reads it back. |
| Display.StrftimeRoundTrip | notifier.py:67 | The display `YYYY-MM-DD HH:MM:SS JST` reads back as the fields it was made from, down to the second. |
| Display.NineOnNewYearsDay | notifier.py:67 | The display of 2024-01-01 09:00:00 is `2024-01-01 09:00:00 JST`. |
| Clock.UtcToJst | notifier.py:22-28 | A naive datetime is taken as UTC. The result exists exactly when the instant and the instant plus nine hours both lie in years 1..9999; otherwise OverflowError. The result is in +09:00, denotes the same UTC instant, and its wall clock is nine hours later. |
| Clock.NaiveIsUtc | notifier.py:24-26 | A naive datetime converts exactly as the same wall clock marked UTC. |
| Clock.Get24HoursAgo | notifier.py:31-34 | The threshold exists exactly when `now` is at least 24 hours after the start of year 1. It is naive and exactly 86400 seconds before `now`. |
| Clock.ThresholdIsPreviousDay | notifier.py:31-34 | 24 hours before `now` is the same time of day on the previous calendar day, across month ends, year ends and leap days. |
| Clock.Format | notifier.py:67 | `dt.strftime('%Y-%m-%d %H:%M:%S JST')` is 23 characters long. `Clock.FormatReadsBack` reads it back as the wall-clock fields. |
| Clock.FormatReadsBack | notifier.py:67 | A datetime's `strftime` display reads back as its wall-clock fields with the microseconds dropped. |
| Clock.WholeSecondsReadBack | notifier.py:67 | A whole-second datetime, displayed and read back, gives its own wall clock. |
| Clock.JstDisplayReadsBack | notifier.py:57-67 | The JST display of a whole-second UTC instant reads back as that instant plus nine hours. |
| Feed.PublishedUtc | notifier.py:57 | An entry's UTC instant, when it has one, lies in years 1..9999 and is a whole number of seconds. |
| Feed.Terms | notifier.py:69 | The category list exists exactly when every tag has a term. It then lists the terms in tag order, one per tag. |
| Feed.Process | notifier.py:55-74 | One pass of the loop body. An item is produced only for an entry whose timestamp builds a datetime at or after the threshold. `Feed.RetainedIff` gives the full condition and `Feed.ItemFields` the item's fields. |
| Feed.RetainedIff | notifier.py:54-74 | An entry yields an item exactly when all of these hold: its timestamp builds a datetime, its JST display stays within year 9999, it has a title, a link and a term on every tag, and its instant is at or after the threshold (inclusive). |
| Feed.ItemFields | notifier.py:64-70 | A kept entry's item carries the entry's title, link, description (empty when missing) and tag terms. |
| Feed.DisplayedInJst | notifier.py:57-67 | A kept item's `published` text reads back as valid fields whose instant is the entry's UTC instant plus nine hours. |
| Feed.RecentIsSubsequence | notifier.py:52-74 | The result is an order-preserving subsequence of the feed. The k-th item comes from the k-th kept position, positions increase, and a position is kept exactly when its entry yields an item. |
| Feed.RetainedAreListed | notifier.py:63-70 | Every entry that passes the filter has its item in the result. |
| Feed.ListedAreRetained | notifier.py:54-74 | Every item in the result is the item of some feed entry. |
| Feed.RecentNews | notifier.py:44-49 | A parse error (`bozo`) gives no items. It raises OverflowError exactly when there is no parse error and `now` is within the first 24 hours of year 1. |
| Feed.GetRecentNews | notifier.py:37-77 | The loop computes `RecentNews`. A parse error (`bozo`) gives no items. Otherwise the call raises OverflowError exactly when `now` is within the first 24 hours of year 1. In every other case the result is the items of the entries at or after `now - 86400 s`, in feed order. |
| Sequences.FilterMapIsSubsequence | notifier.py:52-74 | Filter-and-map keeps the accepted elements' values in order. A position is kept exactly when its element is accepted. |
| Sequences.FilterMapStep | notifier.py:63-64 | One more loop pass appends the value for the next element, if it has one. |
| Sequences.FilterMapKeeps | notifier.py:63-64 | Every value given for an element is in the result. |
| Sequences.FilterMapFrom | notifier.py:54-70 | Every value in the result is given for some element. |
| Strings.SplitJoin | notifier.py:114 | Splitting on `", "` undoes `', '.join`, when no part contains the separator. |
| Slack.CategoryTextLists | notifier.py:114 | With no categories the text is `なし`. Otherwise, when no category contains `, `, it lists exactly the first three categories, in order (fewer when there are fewer). |
| Slack.CategoryText | notifier.py:114 | With no categories the text is `なし`; with one category it is that category. `Slack.CategoryTextLists` covers any number. |
| Slack.NewsBlocks | notifier.py:88-129 | A news message has five blocks: the `🆕 AWS最新情報` header first and a divider last. |
| Slack.NewsBlocksShowItem | notifier.py:88-129 | A news message shows the item's title, publication time, category text and link, each recoverable from it. |
| Slack.NoNewsBlocks | notifier.py:166-193 | The no-news message has three blocks: the `📋 AWS最新情報` header, the fixed no-news sentence, then the period field. |
| Slack.NoNewsBlocksShowThreshold | notifier.py:166-193 | The no-news message shows the threshold text, recoverable from it. |
| Slack.Deliver | notifier.py:82-156 | With no webhook (unset or empty): no POST, result False. Otherwise: one POST of the message to the webhook, True exactly when the reply is status 200. HTTP errors, URL errors and other exceptions give False. |
| Slack.SendSlackNotification | notifier.py:80-156 | `send_slack_notification`: no POST and False without a webhook. Otherwise it POSTs the item's news message and returns True exactly on status 200. |
| Slack.SendNoNewsNotification | notifier.py:159-218 | `send_no_news_notification`: no POST and False without a webhook. Otherwise it POSTs the no-news message and returns True exactly on status 200. |
| Handler.ThresholdDisplay | notifier.py:238-240 | The threshold display exists exactly when `now - 24h` and its JST wall clock both lie in years 1..9999. |
| Handler.ThresholdShownInJst | notifier.py:259-266 | The threshold is shown as the `strftime` display of `now - 24h + 9h` in +09:00. |
| Handler.StatusCode | notifier.py:262-283 | `statusCode` is 200 exactly for a success and 500 exactly for the error response. |
| Handler.Summary | notifier.py:265 | The summary message holds the count as `str` writes it between the fixed words. The text between them has exactly as many digits as the count needs and no leading zero, so a count of 0 shows as `0`. It reads back as the count. |
| Handler.Delivered | notifier.py:251-254 | The count of status-200 replies among the first `n` sends is at most `n`. It equals `n` exactly when every one of them was 200. |
| Handler.Tallied | notifier.py:233-254 | Success plus failure equals the number of sends. With no webhook there are no successes. With a webhook set, there are no failures exactly when every send got status 200. |
| Handler.NotifyNoNews | notifier.py:236-244 | The no-news branch makes one send and tallies it. It POSTs the no-news message exactly when a webhook is set. |
| Handler.NotifyEach | notifier.py:245-254 | One send per item, in order, none stopping the next. Successes are the status-200 replies. Success plus failure equals the item count. The POSTs are the items' news messages in order. |
| Handler.NewsPostsStep | notifier.py:247-251 | One more item adds its own POST at the end of the posts. |
| Handler.Respond | notifier.py:236-274 | After the fetch the answer is an error exactly in two cases: the no-news threshold display overflows, or the response threshold display overflows. Otherwise the body has the summary message, the threshold display, the count, the tally and the items. The POSTs are those of the branch taken. |
| Handler.LambdaHandler | notifier.py:221-283 | If the fetch raises, or `now - 24h` overflows, the handler returns the error response and posts nothing. Otherwise the response is an error exactly when a threshold display it needs overflows. The success body has the summary, the threshold display, the count, the tally and the items. The POSTs are the items' news messages, or the single no-news message when there are no items. A parse error leads to at most one POST and a zero count. A parse error with both threshold displays in range gives status 200. A success's tally adds up to the sends made. Without a webhook nothing is posted and nothing succeeds. |

## Left out

- Fetching and parsing the feed (`feedparser.parse` on the URL) is not modelled. The parsed feed is a parameter; `None` stands for `parse` itself raising.
- Building the HTTP request is not modelled: JSON serialisation, the UTF-8 body, the headers and `urlopen`. A POST is the webhook URL plus the message blocks. The reply to the k-th send is a parameter, either a status or an exception.
- Logging is not modelled, including the `strftime` of the threshold in the log line at notifier.py:50. It cannot raise for a datetime in range.
- `os.environ` is not modelled. The webhook setting is a parameter, with `None` for unset.
- `datetime.now()` is not modelled. Its readings are parameters. The host's local time zone is not modelled: the reading is used as the naive wall clock the code subtracts from.
- `event` and `context` are not modelled; the handler never reads them.
- Exceptions that the code cannot reach for well-formed inputs (MemoryError, a non-string title, and the like) are not modelled. Only OverflowError from date arithmetic and a failing `feedparser.parse` reach the top-level `except`. The error response's `str(e)` text is replaced by the fault's kind.
- Display.Strftime: always writes the year in four digits. For a year before 1000, the C library's `%Y` may print fewer digits.
- Clock.ThresholdIsPreviousDay: stated about `now - Day`. `Clock.Get24HoursAgo`'s contract shows that this is the threshold's wall clock.
- Slack.NewsBlocks: the item's `description` is not shown in the message, as in the code. Slack markup inside titles or links is not escaped, and the model does not reason about it.
