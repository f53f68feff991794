/** `get_recent_news`: the entries of the parsed feed that were published
    within the last 24 hours, rendered as news items. */
module Feed {
  import opened Wrappers
  import opened Calendar
  import opened Display
  import opened Clock
  import opened Faults
  import opened Sequences

  /** The first six fields of `entry.published_parsed`. */
  datatype StructTime = StructTime(year: int, month: int, day: int, hour: int, minute: int, second: int)

  /** A category tag; `term` is None when the tag has no `term` attribute. */
  datatype Tag = Tag(term: Option<string>)

  /** A feed entry as the parser hands it over; None marks a missing field. */
  datatype Entry = Entry(
    title: Option<string>,
    link: Option<string>,
    published: Option<StructTime>,
    description: Option<string>,
    tags: seq<Tag>)

  /** The parser's result: the `bozo` error flag and the entries. */
  datatype ParsedFeed = ParsedFeed(bozo: bool, entries: seq<Entry>)

  /** One element of `recent_items`. */
  datatype NewsItem = NewsItem(
    title: string,
    link: string,
    published: string,
    description: string,
    categories: seq<string>)

  /** `datetime(*entry.published_parsed[:6])`: None where that raises. */
  function PublishedUtc(e: Entry): (r: Option<int>)
    ensures r.Some? ==> InRange(r.value) && r.value % MicrosPerSecond == 0
  {
    match e.published
    case None => None
    case Some(st) => Construct(st.year, st.month, st.day, st.hour, st.minute, st.second)
  }

  /** `[tag.term for tag in entry.get('tags', [])]`: None where a tag has no term. */
  function Terms(tags: seq<Tag>): (r: Option<seq<string>>)
    ensures r.Some? <==> forall i :: 0 <= i < |tags| ==> tags[i].term.Some?
    ensures r.Some? ==> |r.value| == |tags| && forall i :: 0 <= i < |tags| ==> r.value[i] == tags[i].term.value
  {
    if tags == [] then Some([])
    else match (tags[0].term, Terms(tags[1..]))
      case (Some(t), Some(rest)) => Some([t] + rest)
      case _ => None
  }

  /** One pass of the loop body: the item appended for `e`, or None when the
      entry is older than the threshold or raised while being read. */
  function Process(e: Entry, threshold: int): (r: Option<NewsItem>)
    ensures r.Some? ==> PublishedUtc(e).Some? && threshold <= PublishedUtc(e).value
  {
    match PublishedUtc(e)
    case None => None
    case Some(utc) =>
      match UtcToJst(DateTime(utc, None))
      case None => None
      case Some(jst) =>
        if utc < threshold then None
        else if e.title.None? || e.link.None? || Terms(e.tags).None? then None
        else Some(NewsItem(e.title.value, e.link.value, Format(jst),
                           e.description.GetOr(""), Terms(e.tags).value))
  }

  /** An entry that can be read in full: a valid timestamp whose JST display
      stays within year 9999, a title, a link and a term on every tag. */
  predicate Readable(e: Entry) {
    && PublishedUtc(e).Some?
    && InRange(PublishedUtc(e).value + JstOffset)
    && e.title.Some? && e.link.Some?
    && Terms(e.tags).Some?
  }

  /** The filter keeps an entry exactly when it reads in full and its instant
      is at or after the threshold. */
  lemma RetainedIff(e: Entry, threshold: int)
    ensures Process(e, threshold).Some? <==> Readable(e) && PublishedUtc(e).value >= threshold
  {
    if Process(e, threshold).Some? {
      assert Readable(e) && PublishedUtc(e).value >= threshold;
    }
    if Readable(e) && PublishedUtc(e).value >= threshold {
      assert UtcToJst(DateTime(PublishedUtc(e).value, None)).Some?;
    }
  }

  /** A kept entry's item carries the entry's own title, link, description
      (empty when missing) and tag terms. */
  lemma ItemFields(e: Entry, threshold: int)
    ensures Process(e, threshold).Some? ==>
      var item := Process(e, threshold).value;
      && item.title == e.title.value && item.link == e.link.value
      && item.description == (if e.description.Some? then e.description.value else "")
      && item.categories == Terms(e.tags).value
  {
  }

  /** The displayed publication time, read back, is the entry's UTC instant
      moved forward by nine hours. */
  lemma DisplayedInJst(e: Entry, threshold: int)
    requires Process(e, threshold).Some?
    ensures ParseDisplay(Process(e, threshold).value.published).Some?
    ensures ValidCivil(ParseDisplay(Process(e, threshold).value.published).value)
    ensures FromCivil(ParseDisplay(Process(e, threshold).value.published).value)
            == PublishedUtc(e).value + 9 * MicrosPerHour
  {
    var utc := PublishedUtc(e).value;
    assert UtcToJst(DateTime(utc, None)) == Some(DateTime(utc + JstOffset, Some(JstOffset)));
    JstDisplayReadsBack(utc, Process(e, threshold).value.published);
  }

  /** The loop body as a function of the entry alone. */
  function ProcessAgainst(threshold: int): Entry -> Option<NewsItem> {
    e => Process(e, threshold)
  }

  /** The items the loop appends for `entries`, in order. */
  function Recent(entries: seq<Entry>, threshold: int): seq<NewsItem> {
    FilterMap(entries, ProcessAgainst(threshold))
  }

  /** The result is an order-preserving subsequence of the feed: the k-th item
      comes from the k-th kept position, positions increase, and a position is
      kept exactly when its entry passes the filter. */
  lemma RecentIsSubsequence(entries: seq<Entry>, threshold: int)
    ensures var r, ks := Recent(entries, threshold), KeptPositions(entries, ProcessAgainst(threshold));
      && |r| == |ks|
      && (forall k :: 0 <= k < |ks| ==> 0 <= ks[k] < |entries| && Process(entries[ks[k]], threshold) == Some(r[k]))
      && (forall k, l :: 0 <= k < l < |ks| ==> ks[k] < ks[l])
      && (forall i :: 0 <= i < |entries| ==> (i in ks <==> Process(entries[i], threshold).Some?))
  {
    FilterMapIsSubsequence(entries, ProcessAgainst(threshold));
  }

  /** Every entry that passes the filter yields an item of the result. */
  lemma RetainedAreListed(entries: seq<Entry>, threshold: int, i: int)
    requires 0 <= i < |entries| && Readable(entries[i]) && PublishedUtc(entries[i]).value >= threshold
    ensures Process(entries[i], threshold).value in Recent(entries, threshold)
  {
    RetainedIff(entries[i], threshold);
    FilterMapKeeps(entries, ProcessAgainst(threshold), i, Process(entries[i], threshold).value);
  }

  /** Every item of the result comes from an entry that passes the filter. */
  lemma ListedAreRetained(entries: seq<Entry>, threshold: int, item: NewsItem)
    requires item in Recent(entries, threshold)
    ensures exists i :: 0 <= i < |entries| && Process(entries[i], threshold) == Some(item)
  {
    FilterMapFrom(entries, ProcessAgainst(threshold), item);
    var i :| 0 <= i < |entries| && ProcessAgainst(threshold)(entries[i]) == Some(item);
    assert Process(entries[i], threshold) == Some(item);
  }

  /** What `get_recent_news` returns: nothing on a parse error, OverflowError
      when `now - 24h` leaves the calendar, otherwise the recent items. */
  function RecentNews(feed: ParsedFeed, now: int): (r: Result<seq<NewsItem>, Fault>)
    requires InRange(now)
    ensures feed.bozo ==> r == Ok([])
    ensures r.Raised? <==> !feed.bozo && now < Day
  {
    if feed.bozo then Ok([])
    else match Get24HoursAgo(now)
      case None => Raised(DateOutOfRange)
      case Some(threshold) => Ok(Recent(feed.entries, threshold.wall))
  }

  /** `get_recent_news`, with the feed already parsed and `datetime.now()` given. */
  method GetRecentNews(feed: ParsedFeed, now: int) returns (r: Result<seq<NewsItem>, Fault>)
    requires InRange(now)
    ensures r == RecentNews(feed, now)
    ensures feed.bozo ==> r == Ok([])
    ensures !feed.bozo ==> (r.Raised? <==> now < Day)
    ensures !feed.bozo && r.Ok? ==> r.value == Recent(feed.entries, now - 86_400 * MicrosPerSecond)
  {
    if feed.bozo {
      return Ok([]);
    }
    var threshold := Get24HoursAgo(now);
    if threshold.None? {
      return Raised(DateOutOfRange);
    }
    var recentItems: seq<NewsItem> := [];
    for i := 0 to |feed.entries|
      invariant recentItems == Recent(feed.entries[..i], threshold.value.wall)
    {
      var item := Process(feed.entries[i], threshold.value.wall);
      FilterMapStep(feed.entries, i, ProcessAgainst(threshold.value.wall), item);
      if item.Some? {
        recentItems := recentItems + [item.value];
      }
    }
    assert feed.entries[..|feed.entries|] == feed.entries;
    assert threshold.value.wall == now - 86_400 * MicrosPerSecond;
    return Ok(recentItems);
  }
}
