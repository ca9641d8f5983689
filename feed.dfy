/**
 * Feed entries and how they are shown: the rows `display_feeds` adds to its
 * table, the fields of `display_story_details`, and the count of stories the
 * start-up banner announces.
 */
module Feed {
  import opened Wrappers
  import opened Numerals
  import opened TimeFormat

  /**
   * One feed item. Each field may be missing, as a key of the parsed entry
   * may be; `published` is the publication instant in seconds on the same
   * clock as the `now` the renderers are given.
   */
  datatype Entry = Entry(
    title: Option<string>,
    link: Option<string>,
    author: Option<string>,
    published: Option<int>,
    comments: Option<string>)

  /** The table shows at most this many entries. */
  const MaxRows: nat := 30

  const DefaultTitle: string := "No title"
  const DefaultLink: string := ""
  const DefaultAuthor: string := "Unknown"
  const DefaultComments: string := ""

  /** One table row: the 1-based index, the title with the link it points to, the age and the author. */
  datatype Row = Row(index: string, title: string, link: string, time: string, author: string)

  /** The fields of the detail panel. */
  datatype Details = Details(title: string, author: string, posted: string, link: string, comments: string)

  /** What `display_feeds` shows: a notice for an empty list, or the table. */
  datatype Listing = NoStoriesFound | Table(rows: seq<Row>)

  /** The time since publication, when the entry has one. */
  function Elapsed(published: Option<int>, now: int): (e: Option<int>)
    ensures e.Some? <==> published.Some?
    ensures e.Some? ==> published.value + e.value == now
  {
    match published
    case None => None
    case Some(p) => Some(now - p)
  }

  /** The row for the entry shown at 1-based position `index`; its age is "unknown" exactly without a publication time. */
  function RowOf(index: nat, e: Entry, now: int): (r: Row)
    ensures r.time == "unknown" <==> e.published.None?
  {
    Row(Decimal(index),
        e.title.GetOr(DefaultTitle),
        e.link.GetOr(DefaultLink),
        FormatTime(Elapsed(e.published, now)),
        e.author.GetOr(DefaultAuthor))
  }

  /** The detail panel of one entry; "Posted" reads "unknown" exactly without a publication time. */
  function StoryDetails(e: Entry, now: int): (d: Details)
    ensures d.posted == "unknown" <==> e.published.None?
  {
    Details(e.title.GetOr(DefaultTitle),
            e.author.GetOr(DefaultAuthor),
            FormatTime(Elapsed(e.published, now)),
            e.link.GetOr(DefaultLink),
            e.comments.GetOr(DefaultComments))
  }

  /** `min(len(entries), 30)`: the number of entries the table shows. */
  function ShownCount(entries: seq<Entry>): (n: nat)
    ensures n <= MaxRows && n <= |entries|
    ensures n == MaxRows || n == |entries|
  {
    if |entries| < MaxRows then |entries| else MaxRows
  }

  /**
   * `display_feeds`: nothing but a notice for an empty list; otherwise one
   * row for each of the first 30 entries, in order, numbered from 1.
   */
  method DisplayFeeds(entries: seq<Entry>, now: int) returns (listing: Listing)
    ensures listing.NoStoriesFound? <==> entries == []
    ensures listing.Table? ==> |listing.rows| == ShownCount(entries)
    ensures listing.Table? ==> forall i :: 0 <= i < |listing.rows| ==>
              listing.rows[i] == RowOf(i + 1, entries[i], now)
    ensures listing.Table? ==> forall i :: 0 <= i < |listing.rows| ==>
              IsDigits(listing.rows[i].index) && DecimalValue(listing.rows[i].index) == i + 1
  {
    if entries == [] {
      return NoStoriesFound;
    }
    var rows: seq<Row> := [];
    var shown := ShownCount(entries);
    for i := 0 to shown
      invariant |rows| == i
      invariant forall k :: 0 <= k < i ==> rows[k] == RowOf(k + 1, entries[k], now)
    {
      rows := rows + [RowOf(i + 1, entries[i], now)];
    }
    forall k | 0 <= k < |rows|
      ensures IsDigits(rows[k].index) && DecimalValue(rows[k].index) == k + 1
    {
      RowIndexReadsBack(k + 1, entries[k], now);
    }
    listing := Table(rows);
  }

  /** A missing field shows its default; a present one is shown unchanged. */
  lemma RowDefaults(index: nat, e: Entry, now: int)
    ensures RowOf(index, e, now).title == (if e.title.Some? then e.title.value else "No title")
    ensures RowOf(index, e, now).link == (if e.link.Some? then e.link.value else "")
    ensures RowOf(index, e, now).author == (if e.author.Some? then e.author.value else "Unknown")
    ensures RowOf(index, e, now).time == "unknown" <==> e.published.None?
  {
  }

  /** The detail panel applies the same defaults, and "" for missing comments. */
  lemma DetailsDefaults(e: Entry, now: int)
    ensures StoryDetails(e, now).title == (if e.title.Some? then e.title.value else "No title")
    ensures StoryDetails(e, now).author == (if e.author.Some? then e.author.value else "Unknown")
    ensures StoryDetails(e, now).link == (if e.link.Some? then e.link.value else "")
    ensures StoryDetails(e, now).comments == (if e.comments.Some? then e.comments.value else "")
    ensures StoryDetails(e, now).posted == "unknown" <==> e.published.None?
  {
  }

  /** The table row and the detail panel of an entry show the same title, link, age and author. */
  lemma RowAgreesWithDetails(index: nat, e: Entry, now: int)
    ensures RowOf(index, e, now).title == StoryDetails(e, now).title
    ensures RowOf(index, e, now).link == StoryDetails(e, now).link
    ensures RowOf(index, e, now).time == StoryDetails(e, now).posted
    ensures RowOf(index, e, now).author == StoryDetails(e, now).author
  {
  }

  /** The index string of a row reads back as its position. */
  lemma RowIndexReadsBack(index: nat, e: Entry, now: int)
    ensures IsDigits(RowOf(index, e, now).index)
    ensures DecimalValue(RowOf(index, e, now).index) == index
  {
    DecimalRoundTrip(index);
  }

  /** Distinct rows of one table carry distinct index strings. */
  lemma RowIndicesDistinct(i: nat, j: nat, e1: Entry, e2: Entry, now: int)
    requires i != j
    ensures RowOf(i, e1, now).index != RowOf(j, e2, now).index
  {
    if Decimal(i) == Decimal(j) {
      DecimalInjective(i, j);
    }
  }
}
