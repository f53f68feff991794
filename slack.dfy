/** The two Slack messages, `send_slack_notification` and
    `send_no_news_notification`, with the HTTP exchange reduced to its reply. */
module Slack {
  import opened Wrappers
  import opened Strings
  import opened Feed

  /** A Slack text object: `plain_text` (with its `emoji` flag) or `mrkdwn`. */
  datatype Text = PlainText(text: string, emoji: bool) | Markdown(text: string)

  /** A Slack block: `header`, `section` with `text`, `section` with
      `fields`, or `divider`. */
  datatype Block =
    | Header(text: Text)
    | Section(text: Text)
    | FieldSection(fields: seq<Text>)
    | Divider

  const NewsHeading: string := "🆕 AWS最新情報"
  const NoNewsHeading: string := "📋 AWS最新情報"
  const NoNewsMessage: string := "本日は新しいAWSニュースはありませんでした。"
  const PublishedLabel: string := "*公開日時:*\n"
  const CategoryLabel: string := "*カテゴリ:*\n"
  const PeriodLabel: string := "*確認期間:*\n"
  const PeriodSuffix: string := " 以降"
  const LinkSuffix: string := "|詳細を見る>"
  /** Shown in place of the categories when an item has none. */
  const NoCategories: string := "なし"
  const CategorySeparator: string := ", "
  const MaxCategories: int := 3

  /** `', '.join(categories[:3]) if categories else 'なし'`. */
  function CategoryText(categories: seq<string>): (r: string)
    ensures categories == [] ==> r == NoCategories
    ensures |categories| == 1 ==> r == categories[0]
  {
    if categories == [] then NoCategories
    else Join(categories[..if |categories| < MaxCategories then |categories| else MaxCategories], CategorySeparator)
  }

  /** The category text lists exactly the first three categories (fewer if
      there are fewer), and the placeholder when there are none. */
  lemma CategoryTextLists(categories: seq<string>)
    requires forall i :: 0 <= i < |categories| ==> !Contains(categories[i], CategorySeparator)
    ensures categories == [] ==> CategoryText(categories) == "なし"
    ensures categories != [] ==>
      var shown := Split(CategoryText(categories), CategorySeparator);
      && |shown| == (if |categories| < 3 then |categories| else 3)
      && shown == categories[..|shown|]
  {
    if categories != [] {
      var n := if |categories| < MaxCategories then |categories| else MaxCategories;
      SplitJoin(categories[..n]);
    }
  }

  /** The message for one news item. */
  function NewsBlocks(item: NewsItem): (blocks: seq<Block>)
    ensures |blocks| == 5
    ensures blocks[0] == Header(PlainText(NewsHeading, true)) && blocks[4] == Divider
  {
    [ Header(PlainText(NewsHeading, true)),
      Section(Markdown("*" + item.title + "*")),
      FieldSection([Markdown(PublishedLabel + item.published),
                    Markdown(CategoryLabel + CategoryText(item.categories))]),
      Section(Markdown("<" + item.link + LinkSuffix)),
      Divider ]
  }

  /** The message sent when no item is recent. */
  function NoNewsBlocks(threshold: string): (blocks: seq<Block>)
    ensures |blocks| == 3
    ensures blocks[0] == Header(PlainText(NoNewsHeading, true))
    ensures blocks[1] == Section(Markdown(NoNewsMessage))
  {
    [ Header(PlainText(NoNewsHeading, true)),
      Section(Markdown(NoNewsMessage)),
      FieldSection([Markdown(PeriodLabel + threshold + PeriodSuffix)]) ]
  }

  /** What a reader of a news message sees: title, publication time,
      category text and link. */
  datatype NewsView = NewsView(title: string, published: string, categories: string, link: string)

  function ReadNews(blocks: seq<Block>): Option<NewsView> {
    if |blocks| == 5 && blocks[0] == Header(PlainText(NewsHeading, true)) && blocks[4] == Divider
       && blocks[1].Section? && blocks[1].text.Markdown?
       && blocks[2].FieldSection? && |blocks[2].fields| == 2
       && blocks[2].fields[0].Markdown? && blocks[2].fields[1].Markdown?
       && blocks[3].Section? && blocks[3].text.Markdown?
    then
      match (Unwrap(blocks[1].text.text, "*", "*"), Unwrap(blocks[2].fields[0].text, PublishedLabel, ""),
             Unwrap(blocks[2].fields[1].text, CategoryLabel, ""), Unwrap(blocks[3].text.text, "<", LinkSuffix))
      case (Some(t), Some(p), Some(c), Some(l)) => Some(NewsView(t, p, c, l))
      case _ => None
    else None
  }

  /** A news message shows the item's title, publication time, category text
      and link, each recoverable from it. */
  lemma NewsBlocksShowItem(item: NewsItem)
    ensures ReadNews(NewsBlocks(item)) ==
      Some(NewsView(item.title, item.published, CategoryText(item.categories), item.link))
  {
    UnwrapWrapped("*", item.title, "*");
    UnwrapWrapped(PublishedLabel, item.published, "");
    assert PublishedLabel + item.published + "" == PublishedLabel + item.published;
    UnwrapWrapped(CategoryLabel, CategoryText(item.categories), "");
    assert CategoryLabel + CategoryText(item.categories) + "" == CategoryLabel + CategoryText(item.categories);
    UnwrapWrapped("<", item.link, LinkSuffix);
  }

  /** The threshold a no-news message shows. */
  function ReadNoNews(blocks: seq<Block>): Option<string> {
    if |blocks| == 3 && blocks[0] == Header(PlainText(NoNewsHeading, true))
       && blocks[1] == Section(Markdown(NoNewsMessage))
       && blocks[2].FieldSection? && |blocks[2].fields| == 1 && blocks[2].fields[0].Markdown?
    then Unwrap(blocks[2].fields[0].text, PeriodLabel, PeriodSuffix)
    else None
  }

  lemma NoNewsBlocksShowThreshold(threshold: string)
    ensures ReadNoNews(NoNewsBlocks(threshold)) == Some(threshold)
  {
    UnwrapWrapped(PeriodLabel, threshold, PeriodSuffix);
  }

  /** The outcome of `urlopen`: a response with its status, or an exception
      (HTTPError, URLError or any other). */
  datatype Reply = Status(code: int) | Failed

  /** One HTTP POST of a message to the webhook. */
  datatype Post = Post(url: string, blocks: seq<Block>)

  /** What one send did: the POST it issued, if any, and its return value. */
  datatype Attempt = Attempt(post: Option<Post>, delivered: bool)

  /** `if not SLACK_WEBHOOK_URL`: both None and the empty string count as unset. */
  predicate Configured(webhook: Option<string>) {
    webhook.Some? && webhook.value != ""
  }

  /** The shared body of both senders: no webhook means no POST and False;
      otherwise one POST, True exactly when the reply is status 200. */
  function Deliver(webhook: Option<string>, blocks: seq<Block>, reply: Reply): (a: Attempt)
    ensures !Configured(webhook) ==> a.post.None? && !a.delivered
    ensures Configured(webhook) ==> a.post == Some(Post(webhook.value, blocks))
    ensures a.delivered <==> Configured(webhook) && reply == Status(200)
  {
    if !Configured(webhook) then Attempt(None, false)
    else match reply
      case Status(code) => Attempt(Some(Post(webhook.value, blocks)), code == 200)
      case Failed => Attempt(Some(Post(webhook.value, blocks)), false)
  }

  /** `send_slack_notification(news_item)`. */
  function SendSlackNotification(webhook: Option<string>, item: NewsItem, reply: Reply): (a: Attempt)
    ensures !Configured(webhook) ==> a == Attempt(None, false)
    ensures Configured(webhook) ==>
      a.post == Some(Post(webhook.value, NewsBlocks(item))) && (a.delivered <==> reply == Status(200))
  {
    Deliver(webhook, NewsBlocks(item), reply)
  }

  /** `send_no_news_notification(time_threshold)`. */
  function SendNoNewsNotification(webhook: Option<string>, threshold: string, reply: Reply): (a: Attempt)
    ensures !Configured(webhook) ==> a == Attempt(None, false)
    ensures Configured(webhook) ==>
      a.post == Some(Post(webhook.value, NoNewsBlocks(threshold))) && (a.delivered <==> reply == Status(200))
  {
    Deliver(webhook, NoNewsBlocks(threshold), reply)
  }
}
