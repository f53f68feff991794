/** `lambda_handler`: fetch, notify once per recent item (or once with the
    no-news message), and answer with a summary. */
module Handler {
  import opened Wrappers
  import opened Calendar
  import opened Display
  import opened Clock
  import opened Faults
  import opened Feed
  import opened Strings
  import opened Slack

  /** The three `datetime.now()` readings one invocation can take: inside
      `get_recent_news`, for the no-news message, and for the response. */
  datatype Readings = Readings(fetch: int, noNews: int, response: int)

  predicate ReadingsInRange(clock: Readings) {
    InRange(clock.fetch) && InRange(clock.noNews) && InRange(clock.response)
  }

  /** `slack_notifications` of the response body. */
  datatype Tally = Tally(success: nat, failure: nat)

  /** The `body` of a successful response. */
  datatype Body = Body(
    message: string,
    timeThreshold: string,
    count: nat,
    notifications: Tally,
    items: seq<NewsItem>)

  /** A success response, or the error response built by the top-level
      `except`. */
  datatype Response = Success(body: Body) | Failure(fault: Fault)

  /** `statusCode`: 200 for a success, 500 for the error response. */
  function StatusCode(r: Response): (code: int)
    ensures code == 200 <==> r.Success?
    ensures code == 500 <==> r.Failure?
  {
    if r.Success? then 200 else 500
  }

  /** `utc_to_jst(get_24_hours_ago()).strftime(...)`: the threshold shown in
      JST, or None where the date arithmetic raises. */
  function ThresholdDisplay(now: int): (r: Option<string>)
    requires InRange(now)
    ensures r.Some? <==> now >= Day && InRange(now - Day + JstOffset)
  {
    match Get24HoursAgo(now)
    case None => None
    case Some(threshold) =>
      match UtcToJst(threshold)
      case None => None
      case Some(jst) => Some(Format(jst))
  }

  /** The threshold is shown as the JST wall clock of `now - 24h`: the
      display of that instant moved forward by nine hours, in the +09:00 zone
      (which FormatReadsBack reads back field by field). */
  lemma ThresholdShownInJst(now: int)
    requires InRange(now) && ThresholdDisplay(now).Some?
    ensures Valid(DateTime(now - Day + JstOffset, Some(JstOffset)))
    ensures ThresholdDisplay(now) == Some(Format(DateTime(now - Day + JstOffset, Some(JstOffset))))
  {
    assert Get24HoursAgo(now) == Some(DateTime(now - Day, None));
    assert UtcToJst(DateTime(now - Day, None)) == Some(DateTime(now - Day + JstOffset, Some(JstOffset)));
  }

  const SummaryPrefix: string := "24時間以内のAWS最新情報を"
  const SummarySuffix: string := "件取得しました"

  /** `f'24時間以内のAWS最新情報を{len(recent_news)}件取得しました'`: the
      count, in decimal, can be read back from between the fixed words. */
  function Summary(count: nat): (r: string)
    ensures Unwrap(r, SummaryPrefix, SummarySuffix).Some?
    ensures var shown := Unwrap(r, SummaryPrefix, SummarySuffix).value;
      AllDigits(shown) && ValueOf(shown) == count
    ensures var shown := Unwrap(r, SummaryPrefix, SummarySuffix).value;
      |shown| == Width(count) && (|shown| > 1 ==> shown[0] != '0')
  {
    UnwrapWrapped(SummaryPrefix, DecimalString(count), SummarySuffix);
    SummaryPrefix + DecimalString(count) + SummarySuffix
  }

  /** How many of the first `n` sends the network answered with status 200. */
  function Delivered(network: nat -> Reply, n: nat): (r: nat)
    ensures r <= n
    ensures r == n <==> forall k :: 0 <= k < n ==> network(k) == Status(200)
  {
    if n == 0 then 0
    else Delivered(network, n - 1) + (if network(n - 1) == Status(200) then 1 else 0)
  }

  /** The POSTs of the news messages for `items`, one each, in order. */
  function NewsPosts(url: string, items: seq<NewsItem>): (r: seq<Post>)
    ensures |r| == |items|
  {
    seq(|items|, k requires 0 <= k < |items| => Post(url, NewsBlocks(items[k])))
  }

  /** One more item adds its own POST at the end. */
  lemma NewsPostsStep(url: string, items: seq<NewsItem>, i: nat)
    requires i < |items|
    ensures NewsPosts(url, items[..i + 1]) == NewsPosts(url, items[..i]) + [Post(url, NewsBlocks(items[i]))]
  {
    assert items[..i + 1][..i] == items[..i];
  }

  /** How many sends the handler makes for `count` recent items. */
  function Sends(count: nat): nat {
    if count == 0 then 1 else count
  }

  /** `slack_notifications` after the sends made for `count` recent items:
      a success for each send the network answered with status 200, a
      failure for every other. */
  function Tallied(webhook: Option<string>, network: nat -> Reply, count: nat): (t: Tally)
    ensures t.success + t.failure == Sends(count)
    ensures !Configured(webhook) ==> t.success == 0
    ensures Configured(webhook) ==> (t.failure == 0 <==> forall k :: 0 <= k < Sends(count) ==> network(k) == Status(200))
  {
    var delivered := if Configured(webhook) then Delivered(network, Sends(count)) else 0;
    Tally(delivered, Sends(count) - delivered)
  }

  /** The `if` branch of the handler once the threshold is shown: one
      no-news send, tallied. */
  method NotifyNoNews(webhook: Option<string>, shown: string, network: nat -> Reply)
    returns (tally: Tally, posts: seq<Post>)
    ensures tally == Tallied(webhook, network, 0)
    ensures posts == if Configured(webhook) then [Post(webhook.value, NoNewsBlocks(shown))] else []
  {
    var successCount, failureCount := 0, 0;
    posts := [];
    var attempt := SendNoNewsNotification(webhook, shown, network(0));
    if attempt.post.Some? {
      posts := [attempt.post.value];
    }
    if attempt.delivered {
      successCount := 1;
    } else {
      failureCount := 1;
    }
    tally := Tally(successCount, failureCount);
  }

  /** The `else` branch of the handler: one send per item, in order, each
      tallied, none stopping the next. */
  method NotifyEach(webhook: Option<string>, items: seq<NewsItem>, network: nat -> Reply)
    returns (tally: Tally, posts: seq<Post>)
    ensures tally.success == (if Configured(webhook) then Delivered(network, |items|) else 0)
    ensures tally.success + tally.failure == |items|
    ensures items != [] ==> tally == Tallied(webhook, network, |items|)
    ensures posts == (if Configured(webhook) then NewsPosts(webhook.value, items) else [])
  {
    var successCount, failureCount := 0, 0;
    posts := [];
    for i := 0 to |items|
      invariant successCount + failureCount == i
      invariant successCount == if Configured(webhook) then Delivered(network, i) else 0
      invariant posts == if Configured(webhook) then NewsPosts(webhook.value, items[..i]) else []
    {
      var attempt := SendSlackNotification(webhook, items[i], network(i));
      if attempt.post.Some? {
        NewsPostsStep(webhook.value, items, i);
        posts := posts + [attempt.post.value];
      }
      if attempt.delivered {
        successCount := successCount + 1;
      } else {
        failureCount := failureCount + 1;
      }
    }
    assert items[..|items|] == items;
    tally := Tally(successCount, failureCount);
  }

  /** The handler after the fetch, given the recent items: notify, then
      answer with the summary, or with the error response when showing the
      threshold raises. */
  method Respond(webhook: Option<string>, items: seq<NewsItem>, clock: Readings, network: nat -> Reply)
    returns (response: Response, posts: seq<Post>)
    requires InRange(clock.noNews) && InRange(clock.response)
    ensures response.Failure? <==>
      (items == [] && ThresholdDisplay(clock.noNews).None?) || ThresholdDisplay(clock.response).None?
    ensures response.Failure? ==> response.fault == DateOutOfRange
    ensures response.Success? ==> response.body == Body(
      Summary(|items|), ThresholdDisplay(clock.response).value, |items|,
      Tallied(webhook, network, |items|), items)
    ensures posts == (if !Configured(webhook) then []
                      else if items != [] then NewsPosts(webhook.value, items)
                      else if ThresholdDisplay(clock.noNews).Some?
                      then [Post(webhook.value, NoNewsBlocks(ThresholdDisplay(clock.noNews).value))]
                      else [])
  {
    var tally;
    if |items| == 0 {
      var shown := ThresholdDisplay(clock.noNews);
      if shown.None? {
        return Failure(DateOutOfRange), [];
      }
      tally, posts := NotifyNoNews(webhook, shown.value, network);
    } else {
      tally, posts := NotifyEach(webhook, items, network);
    }
    var shown := ThresholdDisplay(clock.response);
    if shown.None? {
      return Failure(DateOutOfRange), posts;
    }
    response := Success(Body(Summary(|items|), shown.value, |items|, tally, items));
  }

  /** The handler with its collaborators passed in: the webhook setting, the
      parser's result (None where `feedparser.parse` raised), the clock
      readings, and the network's reply to the k-th send. It returns the
      response and the POSTs it issued, in order. */
  method LambdaHandler(webhook: Option<string>, feed: Option<ParsedFeed>, clock: Readings, network: nat -> Reply)
    returns (response: Response, posts: seq<Post>)
    requires ReadingsInRange(clock)
    ensures feed.None? ==> response == Failure(FeedUnavailable) && posts == []
    ensures feed.Some? && RecentNews(feed.value, clock.fetch).Raised? ==>
      response == Failure(DateOutOfRange) && posts == []
    ensures feed.Some? && RecentNews(feed.value, clock.fetch).Ok? ==>
      var items := RecentNews(feed.value, clock.fetch).value;
      && (response.Failure? <==>
            (items == [] && ThresholdDisplay(clock.noNews).None?) || ThresholdDisplay(clock.response).None?)
      && (response.Failure? ==> response.fault == DateOutOfRange)
      && (response.Success? ==> response.body == Body(
            Summary(|items|), ThresholdDisplay(clock.response).value, |items|,
            Tallied(webhook, network, |items|), items))
      && posts == (if !Configured(webhook) then []
                   else if items != [] then NewsPosts(webhook.value, items)
                   else if ThresholdDisplay(clock.noNews).Some?
                   then [Post(webhook.value, NoNewsBlocks(ThresholdDisplay(clock.noNews).value))]
                   else [])
    ensures feed.Some? && feed.value.bozo ==>
      && |posts| <= 1
      && (response.Success? ==>
            && response.body.count == 0 && response.body.items == []
            && response.body.notifications.success + response.body.notifications.failure == 1)
      && (Configured(webhook) && ThresholdDisplay(clock.noNews).Some? ==>
            posts == [Post(webhook.value, NoNewsBlocks(ThresholdDisplay(clock.noNews).value))])
      && (ThresholdDisplay(clock.noNews).Some? && ThresholdDisplay(clock.response).Some? ==>
            StatusCode(response) == 200)
    ensures response.Success? ==>
      && response.body.count == |response.body.items|
      && response.body.notifications.success + response.body.notifications.failure == Sends(response.body.count)
    ensures !Configured(webhook) ==> posts == [] && (response.Success? ==> response.body.notifications.success == 0)
  {
    if feed.None? {
      return Failure(FeedUnavailable), [];
    }
    var fetched := GetRecentNews(feed.value, clock.fetch);
    if fetched.Raised? {
      return Failure(fetched.error), [];
    }
    response, posts := Respond(webhook, fetched.value, clock, network);
  }
}
