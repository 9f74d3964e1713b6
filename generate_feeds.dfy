/**
 * The feed generator run after the static build: a combined Atom feed of all
 * articles and one feed per locale, written into the exported site with a
 * `_headers` file that gives the feeds their Atom content type.
 *
 * The article index, the site's base URL and the current time are parameters;
 * the file system is an abstract tree of directories and files.
 */
module GenerateFeeds {
  import opened Wrappers
  import opened JsString
  import opened JsArray
  import opened Atom

  // ---------------------------------------------------------------------------
  // The article index
  // ---------------------------------------------------------------------------

  datatype LocaleMeta = LocaleMeta(title: string, excerpt: string)

  /** An article of the index; `ja` and `en` are present when it has that translation. */
  datatype ArticleRecord = ArticleRecord(slug: string, date: string, ja: Option<LocaleMeta>, en: Option<LocaleMeta>)

  /** One `[slug, record]` pair of `Object.entries`; the index is a sequence of them, in key order. */
  type Article = (string, ArticleRecord)

  datatype Locale = Ja | En

  function Code(loc: Locale): string
  {
    match loc
    case Ja => "ja"
    case En => "en"
  }

  /** `article[loc]`. */
  function Meta(article: ArticleRecord, loc: Locale): Option<LocaleMeta>
  {
    match loc
    case Ja => article.ja
    case En => article.en
  }

  /** The filter `([, article]) => article[locale]`. */
  function HasLocale(loc: Locale): Article -> bool
  {
    (item: Article) => Meta(item.1, loc).Some?
  }

  /** `toRfc3339`: a calendar date as an RFC 3339 timestamp at midnight UTC. */
  function ToRfc3339(date: string): string
  {
    date + "T00:00:00Z"
  }

  /** Different dates give different timestamps. */
  lemma ToRfc3339Injective(a: string, b: string)
    requires ToRfc3339(a) == ToRfc3339(b)
    ensures a == b
  {
    assert a == ToRfc3339(a)[..|a|];
    assert b == ToRfc3339(b)[..|b|];
  }

  /** For dates of the same length (such as ISO dates), timestamps compare as the dates do. */
  lemma ToRfc3339KeepsOrder(a: string, b: string)
    requires |a| == |b|
    ensures Less(ToRfc3339(a), ToRfc3339(b)) <==> Less(a, b)
  {
    LessAppendSameLength(a, b, "T00:00:00Z");
  }

  // ---------------------------------------------------------------------------
  // Sorting by date, newest first
  // ---------------------------------------------------------------------------

  /** The comparator `(b.date < a.date ? -1 : 1)` never puts an article after an older one. */
  predicate NotOlder(a: Article, b: Article)
  {
    !Less(a.1.date, b.1.date)
  }

  ghost predicate NewestFirst(items: seq<Article>)
  {
    Pairwise(NotOlder, items)
  }

  /**
   * Inserts `x` in front of the first article it is not older than; it
   * stays in front of the articles of its own date.
   */
  function InsertByDate(x: Article, items: seq<Article>): seq<Article>
  {
    if |items| == 0 then [x]
    else if NotOlder(x, items[0]) then [x] + items
    else [items[0]] + InsertByDate(x, items[1..])
  }

  lemma {:induction false} InsertByDateMultiset(x: Article, items: seq<Article>)
    ensures multiset(InsertByDate(x, items)) == multiset(items) + multiset{x}
  {
    if |items| > 0 && !NotOlder(x, items[0]) {
      InsertByDateMultiset(x, items[1..]);
      assert items == [items[0]] + items[1..];
    }
  }

  lemma NewestFirstTail(items: seq<Article>)
    requires |items| > 0 && NewestFirst(items)
    ensures NewestFirst(items[1..])
  {
    var t := items[1..];
    forall i, j | 0 <= i < j < |t| ensures NotOlder(t[i], t[j]) {
      assert t[i] == items[i + 1] && t[j] == items[j + 1];
    }
  }

  lemma NewestFirstCons(y: Article, items: seq<Article>)
    requires NewestFirst(items)
    requires forall z :: z in items ==> NotOlder(y, z)
    ensures NewestFirst([y] + items)
  {
    var r := [y] + items;
    forall i, j | 0 <= i < j < |r| ensures NotOlder(r[i], r[j]) {
      assert r[j] == items[j - 1] && items[j - 1] in items;
      if i > 0 {
        assert r[i] == items[i - 1];
      }
    }
  }

  /** An article not older than the head of a newest-first list is not older than any of it. */
  lemma NewerThanAll(x: Article, items: seq<Article>)
    requires |items| > 0 && NewestFirst(items)
    requires NotOlder(x, items[0])
    ensures forall z :: z in items ==> NotOlder(x, z)
  {
    forall z | z in items ensures NotOlder(x, z) {
      var k :| 0 <= k < |items| && items[k] == z;
      if k > 0 {
        assert NotOlder(items[0], items[k]);
        NotLessTransitive(x.1.date, items[0].1.date, z.1.date);
      }
    }
  }

  lemma {:induction false} InsertByDateSorted(x: Article, items: seq<Article>)
    requires NewestFirst(items)
    ensures NewestFirst(InsertByDate(x, items))
  {
    if |items| == 0 {
    } else if NotOlder(x, items[0]) {
      NewerThanAll(x, items);
      NewestFirstCons(x, items);
    } else {
      assert NotOlder(items[0], x) by {
        if Less(items[0].1.date, x.1.date) {
          LessTransitive(x.1.date, items[0].1.date, x.1.date);
          LessIrreflexive(x.1.date);
        }
      }
      var t := items[1..];
      NewestFirstTail(items);
      InsertByDateSorted(x, t);
      InsertByDateMultiset(x, t);
      var u := InsertByDate(x, t);
      forall z | z in u ensures NotOlder(items[0], z) {
        assert z in multiset(u);
        if z != x {
          var k :| 0 <= k < |t| && t[k] == z;
          assert NotOlder(items[0], items[k + 1]);
        }
      }
      NewestFirstCons(items[0], u);
    }
  }

  /**
   * `Array.prototype.sort` with the comparator `(b.date < a.date ? -1 : 1)`:
   * the same articles, newest first. The sort only asks whether the
   * comparator is negative, so articles of one date keep their index order.
   */
  function SortByDateDesc(items: seq<Article>): (r: seq<Article>)
    ensures multiset(r) == multiset(items)
    ensures NewestFirst(r)
  {
    if |items| == 0 then []
    else
      var rest := SortByDateDesc(items[1..]);
      assert items == [items[0]] + items[1..];
      InsertByDateMultiset(items[0], rest);
      InsertByDateSorted(items[0], rest);
      InsertByDate(items[0], rest)
  }

  /** The articles of date `d`. */
  function SameDate(d: string): Article -> bool
  {
    (a: Article) => a.1.date == d
  }

  /** Inserting leaves the articles of each date in their order, `x` first among its own. */
  lemma {:induction false} InsertByDateStable(x: Article, items: seq<Article>, d: string)
    ensures Filter(SameDate(d), InsertByDate(x, items)) == Filter(SameDate(d), [x] + items)
  {
    if |items| > 0 && !NotOlder(x, items[0]) {
      var y, t := items[0], items[1..];
      InsertByDateStable(x, t, d);
      FilterCons(SameDate(d), y, InsertByDate(x, t));
      FilterCons(SameDate(d), x, t);
      FilterCons(SameDate(d), x, items);
      assert items == [y] + t;
      FilterCons(SameDate(d), y, t);
      LessIrreflexive(x.1.date);
      AppendAssoc(if SameDate(d)(y) then [y] else [], if SameDate(d)(x) then [x] else [], Filter(SameDate(d), t));
      AppendAssoc(if SameDate(d)(x) then [x] else [], if SameDate(d)(y) then [y] else [], Filter(SameDate(d), t));
    }
  }

  /** The sort is stable: the articles of each date come out in index order. */
  lemma {:induction false} SortByDateDescStable(items: seq<Article>, d: string)
    ensures Filter(SameDate(d), SortByDateDesc(items)) == Filter(SameDate(d), items)
  {
    if |items| > 0 {
      var rest := SortByDateDesc(items[1..]);
      SortByDateDescStable(items[1..], d);
      InsertByDateStable(items[0], rest, d);
      FilterCons(SameDate(d), items[0], rest);
      FilterCons(SameDate(d), items[0], items[1..]);
      assert items == [items[0]] + items[1..];
    }
  }

  // ---------------------------------------------------------------------------
  // Entries
  // ---------------------------------------------------------------------------

  /** `(["ja", "en"] as const).filter((loc) => article[loc])`. */
  function PresentLocales(article: ArticleRecord): seq<Locale>
  {
    Filter(loc => Meta(article, loc).Some?, [Ja, En])
  }

  /** The locales an article has, Japanese first. */
  lemma PresentLocalesShape(article: ArticleRecord)
    ensures PresentLocales(article)
         == (if article.ja.Some? then [Ja] else []) + (if article.en.Some? then [En] else [])
  {
    var p := (loc: Locale) => Meta(article, loc).Some?;
    assert [Ja, En][1..] == [En];
    assert [En][1..] == [];
    assert Filter(p, [En]) == (if article.en.Some? then [En] else []);
  }

  /** An article that appears in the combined feed: one with at least one locale. */
  predicate IsListed(item: Article)
  {
    |PresentLocales(item.1)| > 0
  }

  lemma IsListedIff(item: Article)
    ensures IsListed(item) <==> item.1.ja.Some? || item.1.en.Some?
  {
    PresentLocalesShape(item.1);
  }

  /** `article.ja ? "ja" : "en"`. */
  function PreferredLocale(article: ArticleRecord): Locale
  {
    if article.ja.Some? then Ja else En
  }

  function ArticleUrl(baseUrl: string, loc: Locale, slug: string): string
  {
    baseUrl + "/" + Code(loc) + "/articles/" + slug
  }

  function LinkText(loc: Locale): string
  {
    if loc == Ja then "記事を読む" else "Read more"
  }

  /** The summary: the excerpt followed by an HTML link to the article. */
  function Summary(excerpt: string, url: string, linkText: string): string
  {
    excerpt + " <a href=\"" + url + "\">" + linkText + "</a>"
  }

  /** `locales.map((loc) => ({ href: ..., hreflang: loc }))`. */
  function LocaleLinks(baseUrl: string, slug: string, locales: seq<Locale>): (r: seq<AtomEntryLink>)
    ensures |r| == |locales|
    ensures forall k :: 0 <= k < |locales| ==> r[k] == AtomEntryLink(ArticleUrl(baseUrl, locales[k], slug), Some(Code(locales[k])))
  {
    if |locales| == 0 then []
    else [AtomEntryLink(ArticleUrl(baseUrl, locales[0], slug), Some(Code(locales[0])))]
         + LocaleLinks(baseUrl, slug, locales[1..])
  }

  /** The entry of the combined feed for a listed article. */
  function CombinedEntry(baseUrl: string, item: Article): AtomEntry
    requires IsListed(item)
  {
    var (slug, article) := item;
    var loc := PreferredLocale(article);
    assert Meta(article, loc).Some? by { IsListedIff(item); }
    var meta := Meta(article, loc).value;
    var url := ArticleUrl(baseUrl, loc, slug);
    var updated := ToRfc3339(article.date);
    AtomEntry(url, meta.title, updated, Summary(meta.excerpt, url, LinkText(loc)),
              LocaleLinks(baseUrl, slug, PresentLocales(article)), Some(updated))
  }

  /** The entry of the feed of locale `loc` for an article that has it. */
  function LocaleEntry(baseUrl: string, loc: Locale, item: Article): AtomEntry
    requires HasLocale(loc)(item)
  {
    var (slug, article) := item;
    var meta := Meta(article, loc).value;
    var url := ArticleUrl(baseUrl, loc, slug);
    var updated := ToRfc3339(article.date);
    AtomEntry(url, meta.title, updated, Summary(meta.excerpt, url, LinkText(loc)),
              [AtomEntryLink(url, Some(Code(loc)))], Some(updated))
  }

  function CombinedEntries(baseUrl: string, items: seq<Article>): (r: seq<AtomEntry>)
    requires forall item :: item in items ==> IsListed(item)
    ensures |r| == |items|
  {
    if |items| == 0 then []
    else CombinedEntries(baseUrl, items[..|items| - 1]) + [CombinedEntry(baseUrl, items[|items| - 1])]
  }

  function LocaleEntries(baseUrl: string, loc: Locale, items: seq<Article>): (r: seq<AtomEntry>)
    requires forall item :: item in items ==> HasLocale(loc)(item)
    ensures |r| == |items|
  {
    if |items| == 0 then []
    else LocaleEntries(baseUrl, loc, items[..|items| - 1]) + [LocaleEntry(baseUrl, loc, items[|items| - 1])]
  }

  /** `latestUpdated` after the loop: replaced by each date greater than it. */
  function LatestDate(init: string, items: seq<Article>): string
  {
    if |items| == 0 then init
    else
      var latest := LatestDate(init, items[..|items| - 1]);
      var date := items[|items| - 1].1.date;
      if Less(latest, date) then date else latest
  }

  // ---------------------------------------------------------------------------
  // The feeds
  // ---------------------------------------------------------------------------

  const EPOCH := "1970-01-01"
  const AUTHOR_NAME := "tatmius"

  /** The articles of the combined feed, in feed order. */
  function CombinedArticles(index: seq<Article>): (r: seq<Article>)
    ensures forall item :: item in r ==> IsListed(item)
  {
    Filter(IsListed, SortByDateDesc(index))
  }

  /** The articles of the feed of one locale, in feed order. */
  function LocaleArticles(index: seq<Article>, loc: Locale): (r: seq<Article>)
    ensures forall item :: item in r ==> HasLocale(loc)(item)
  {
    var f := Filter(HasLocale(loc), index);
    var r := SortByDateDesc(f);
    assert forall item :: item in r ==> item in multiset(f);
    r
  }

  function FeedTitle(loc: Option<Locale>): string
  {
    if loc == Some(Ja) then "tatmius.net ブログ" else "tatmius.net Blog"
  }

  function SelfUrl(baseUrl: string, loc: Option<Locale>): string
  {
    match loc
    case None => baseUrl + "/feed.xml"
    case Some(l) => baseUrl + "/" + Code(l) + "/feed.xml"
  }

  /** The newest date when there are entries, else the current time. */
  function FeedUpdated(articles: seq<Article>, now: string): string
  {
    if |articles| > 0 then ToRfc3339(LatestDate(EPOCH, articles)) else now
  }

  /** The metadata of a feed; `loc` is `None` for the combined feed. */
  function FeedMeta(baseUrl: string, loc: Option<Locale>, articles: seq<Article>, now: string): AtomFeedMeta
  {
    var selfUrl := SelfUrl(baseUrl, loc);
    AtomFeedMeta(FeedTitle(loc), selfUrl, selfUrl, FeedUpdated(articles, now),
                 Some(AtomAuthor(AUTHOR_NAME, Some(baseUrl), None)))
  }

  /** The document `buildAllFeed` returns. */
  function AllFeedXml(index: seq<Article>, baseUrl: string, now: string): string
  {
    var articles := CombinedArticles(index);
    RenderFeed(FeedMeta(baseUrl, None, articles, now), CombinedEntries(baseUrl, articles))
  }

  /** The document `buildLocaleFeed(loc)` returns. */
  function LocaleFeedXml(index: seq<Article>, loc: Locale, baseUrl: string, now: string): string
  {
    var articles := LocaleArticles(index, loc);
    RenderFeed(FeedMeta(baseUrl, Some(loc), articles, now), LocaleEntries(baseUrl, loc, articles))
  }

  // ---------------------------------------------------------------------------
  // The builders
  // ---------------------------------------------------------------------------

  lemma FilterPrefixStep(p: Article -> bool, items: seq<Article>, i: nat)
    requires i < |items|
    ensures Filter(p, items[..i + 1]) == Filter(p, items[..i]) + (if p(items[i]) then [items[i]] else [])
  {
    assert items[..i + 1] == items[..i] + [items[i]];
    FilterSnoc(p, items[..i], items[i]);
  }

  lemma CombinedEntriesSnoc(baseUrl: string, items: seq<Article>, x: Article)
    requires forall item :: item in items ==> IsListed(item)
    requires IsListed(x)
    ensures CombinedEntries(baseUrl, items + [x]) == CombinedEntries(baseUrl, items) + [CombinedEntry(baseUrl, x)]
  {
    assert (items + [x])[..|items|] == items;
  }

  lemma LocaleEntriesSnoc(baseUrl: string, loc: Locale, items: seq<Article>, x: Article)
    requires forall item :: item in items ==> HasLocale(loc)(item)
    requires HasLocale(loc)(x)
    ensures LocaleEntries(baseUrl, loc, items + [x]) == LocaleEntries(baseUrl, loc, items) + [LocaleEntry(baseUrl, loc, x)]
  {
    assert (items + [x])[..|items|] == items;
  }

  lemma LatestDateSnoc(init: string, items: seq<Article>, x: Article)
    ensures LatestDate(init, items + [x]) == if Less(LatestDate(init, items), x.1.date) then x.1.date else LatestDate(init, items)
  {
    assert (items + [x])[..|items|] == items;
  }

  /** One iteration of the loop of `buildAllFeed`. */
  lemma CombinedStep(baseUrl: string, sorted: seq<Article>, i: nat,
                     entries: seq<AtomEntry>, latest: string, entries': seq<AtomEntry>, latest': string)
    requires i < |sorted|
    requires entries == CombinedEntries(baseUrl, Filter(IsListed, sorted[..i]))
    requires latest == LatestDate(EPOCH, Filter(IsListed, sorted[..i]))
    requires IsListed(sorted[i]) ==> entries' == entries + [CombinedEntry(baseUrl, sorted[i])]
    requires IsListed(sorted[i]) ==> latest' == if Less(latest, sorted[i].1.date) then sorted[i].1.date else latest
    requires !IsListed(sorted[i]) ==> entries' == entries && latest' == latest
    ensures entries' == CombinedEntries(baseUrl, Filter(IsListed, sorted[..i + 1]))
    ensures latest' == LatestDate(EPOCH, Filter(IsListed, sorted[..i + 1]))
  {
    var f, x := Filter(IsListed, sorted[..i]), sorted[i];
    FilterPrefixStep(IsListed, sorted, i);
    if IsListed(x) {
      assert Filter(IsListed, sorted[..i + 1]) == f + [x];
      LatestDateSnoc(EPOCH, f, x);
      CombinedEntriesSnoc(baseUrl, f, x);
    } else {
      assert Filter(IsListed, sorted[..i + 1]) == f + [];
      assert f + [] == f;
    }
  }

  /** The loop of `buildAllFeed`: one entry per article with at least one locale, and the newest date. */
  method CollectCombined(baseUrl: string, sorted: seq<Article>) returns (entries: seq<AtomEntry>, latestUpdated: string)
    ensures entries == CombinedEntries(baseUrl, Filter(IsListed, sorted))
    ensures latestUpdated == LatestDate(EPOCH, Filter(IsListed, sorted))
  {
    entries := [];
    latestUpdated := EPOCH;
    for i := 0 to |sorted|
      invariant entries == CombinedEntries(baseUrl, Filter(IsListed, sorted[..i]))
      invariant latestUpdated == LatestDate(EPOCH, Filter(IsListed, sorted[..i]))
    {
      ghost var entries0, latest0 := entries, latestUpdated;
      var (slug, article) := sorted[i];
      var locales := PresentLocales(article);
      if |locales| != 0 {
        IsListedIff((slug, article));
        var preferredLocale := if article.ja.Some? then Ja else En;
        var meta := Meta(article, preferredLocale).value;
        var entryId := baseUrl + "/" + Code(preferredLocale) + "/articles/" + slug;
        var articleUrl := baseUrl + "/" + Code(preferredLocale) + "/articles/" + slug;
        var linkText := if preferredLocale == Ja then "記事を読む" else "Read more";
        var updated := ToRfc3339(article.date);
        var entry := AtomEntry(entryId, meta.title, updated,
                               meta.excerpt + " <a href=\"" + articleUrl + "\">" + linkText + "</a>",
                               LocaleLinks(baseUrl, slug, locales), Some(updated));
        if Less(latestUpdated, article.date) {
          latestUpdated := article.date;
        }
        entries := entries + [entry];
      }
      CombinedStep(baseUrl, sorted, i, entries0, latest0, entries, latestUpdated);
    }
    assert sorted[..|sorted|] == sorted;
  }

  /** `buildAllFeed()`: sort newest first, collect the entries, then render the feed. */
  method BuildAllFeed(index: seq<Article>, baseUrl: string, now: string) returns (xml: string)
    ensures xml == AllFeedXml(index, baseUrl, now)
  {
    var sorted := SortByDateDesc(index);
    var entries, latestUpdated := CollectCombined(baseUrl, sorted);
    var selfUrl := baseUrl + "/feed.xml";
    var feedUpdated := if |entries| > 0 then ToRfc3339(latestUpdated) else now;
    var feedMeta := AtomFeedMeta("tatmius.net Blog", selfUrl, selfUrl, feedUpdated,
                                 Some(AtomAuthor(AUTHOR_NAME, Some(baseUrl), None)));
    assert feedMeta == FeedMeta(baseUrl, None, Filter(IsListed, sorted), now);
    xml := BuildAtomFeed(feedMeta, entries);
  }


  /** One iteration of the loop of `buildLocaleFeed`. */
  lemma LocaleStep(baseUrl: string, loc: Locale, sorted: seq<Article>, i: nat,
                   entries: seq<AtomEntry>, latest: string, entries': seq<AtomEntry>, latest': string)
    requires i < |sorted|
    requires forall item :: item in sorted ==> HasLocale(loc)(item)
    requires entries == LocaleEntries(baseUrl, loc, sorted[..i])
    requires latest == LatestDate(EPOCH, sorted[..i])
    requires entries' == entries + [LocaleEntry(baseUrl, loc, sorted[i])]
    requires latest' == if Less(latest, sorted[i].1.date) then sorted[i].1.date else latest
    ensures entries' == LocaleEntries(baseUrl, loc, sorted[..i + 1])
    ensures latest' == LatestDate(EPOCH, sorted[..i + 1])
  {
    assert sorted[..i + 1] == sorted[..i] + [sorted[i]];
    assert sorted[i] in sorted;
    LatestDateSnoc(EPOCH, sorted[..i], sorted[i]);
    LocaleEntriesSnoc(baseUrl, loc, sorted[..i], sorted[i]);
  }

  /** The loop of `buildLocaleFeed(loc)`: one entry per article, and the newest date. */
  method CollectLocale(baseUrl: string, loc: Locale, sorted: seq<Article>) returns (entries: seq<AtomEntry>, latestUpdated: string)
    requires forall item :: item in sorted ==> HasLocale(loc)(item)
    ensures entries == LocaleEntries(baseUrl, loc, sorted)
    ensures latestUpdated == LatestDate(EPOCH, sorted)
  {
    entries := [];
    latestUpdated := EPOCH;
    for i := 0 to |sorted|
      invariant entries == LocaleEntries(baseUrl, loc, sorted[..i])
      invariant latestUpdated == LatestDate(EPOCH, sorted[..i])
    {
      ghost var entries0, latest0 := entries, latestUpdated;
      var (slug, article) := sorted[i];
      assert sorted[i] in sorted;
      var meta := Meta(article, loc).value;
      var articleUrl := baseUrl + "/" + Code(loc) + "/articles/" + slug;
      var linkText := if loc == Ja then "記事を読む" else "Read more";
      var entryId := articleUrl;
      var updated := ToRfc3339(article.date);
      var entry := AtomEntry(entryId, meta.title, updated,
                             meta.excerpt + " <a href=\"" + articleUrl + "\">" + linkText + "</a>",
                             [AtomEntryLink(articleUrl, Some(Code(loc)))], Some(updated));
      if Less(latestUpdated, article.date) {
        latestUpdated := article.date;
      }
      entries := entries + [entry];
      LocaleStep(baseUrl, loc, sorted, i, entries0, latest0, entries, latestUpdated);
    }
    assert sorted[..|sorted|] == sorted;
  }

  /** `buildLocaleFeed(loc)`: keep the articles in `loc`, sort them newest first, then render the feed. */
  method BuildLocaleFeed(index: seq<Article>, loc: Locale, baseUrl: string, now: string) returns (xml: string)
    ensures xml == LocaleFeedXml(index, loc, baseUrl, now)
  {
    var sorted := SortByDateDesc(Filter(HasLocale(loc), index));
    assert sorted == LocaleArticles(index, loc);
    var entries, latestUpdated := CollectLocale(baseUrl, loc, sorted);
    var selfUrl := baseUrl + "/" + Code(loc) + "/feed.xml";
    var feedUpdated := if |entries| > 0 then ToRfc3339(latestUpdated) else now;
    var feedMeta := AtomFeedMeta(if loc == Ja then "tatmius.net ブログ" else "tatmius.net Blog",
                                 selfUrl, selfUrl, feedUpdated,
                                 Some(AtomAuthor(AUTHOR_NAME, Some(baseUrl), None)));
    assert feedMeta == FeedMeta(baseUrl, Some(loc), sorted, now);
    xml := BuildAtomFeed(feedMeta, entries);
  }


  // ---------------------------------------------------------------------------
  // Properties of the feeds
  // ---------------------------------------------------------------------------

  /** Sorting then filtering keeps the filtered articles, each as often as in the index. */
  lemma SortedFilterMultiset(p: Article -> bool, index: seq<Article>)
    ensures multiset(Filter(p, SortByDateDesc(index))) == multiset(Filter(p, index))
  {
    forall x
      ensures multiset(Filter(p, SortByDateDesc(index)))[x] == multiset(Filter(p, index))[x]
    {
      FilterMultiset(p, SortByDateDesc(index), x);
      FilterMultiset(p, index, x);
    }
  }

  /**
   * The combined feed has one article per article of the index that has a
   * locale (counting repeats), none without one, and none from elsewhere.
   */
  lemma CombinedArticlesSelection(index: seq<Article>, x: Article)
    ensures multiset(CombinedArticles(index))[x] == if IsListed(x) then multiset(index)[x] else 0
  {
    FilterMultiset(IsListed, SortByDateDesc(index), x);
  }

  /** The combined feed's articles are newest first. */
  lemma CombinedArticlesNewestFirst(index: seq<Article>)
    ensures NewestFirst(CombinedArticles(index))
  {
    FilterKeepsPairwise(IsListed, SortByDateDesc(index), NotOlder);
  }

  /** A locale's feed has exactly the articles of the index that have that locale, newest first. */
  lemma LocaleArticlesSelection(index: seq<Article>, loc: Locale, x: Article)
    ensures multiset(LocaleArticles(index, loc))[x] == if Meta(x.1, loc).Some? then multiset(index)[x] else 0
    ensures NewestFirst(LocaleArticles(index, loc))
  {
    FilterMultiset(HasLocale(loc), index, x);
  }

  lemma {:induction false} CombinedEntriesAt(baseUrl: string, items: seq<Article>, k: nat)
    requires forall item :: item in items ==> IsListed(item)
    requires k < |items|
    ensures CombinedEntries(baseUrl, items)[k] == CombinedEntry(baseUrl, items[k])
  {
    if k < |items| - 1 {
      CombinedEntriesAt(baseUrl, items[..|items| - 1], k);
    }
  }

  lemma {:induction false} LocaleEntriesAt(baseUrl: string, loc: Locale, items: seq<Article>, k: nat)
    requires forall item :: item in items ==> HasLocale(loc)(item)
    requires k < |items|
    ensures LocaleEntries(baseUrl, loc, items)[k] == LocaleEntry(baseUrl, loc, items[k])
  {
    if k < |items| - 1 {
      LocaleEntriesAt(baseUrl, loc, items[..|items| - 1], k);
    }
  }

  /**
   * A combined entry: one link per locale of the article, Japanese first,
   * each to that locale's page with that `hreflang`; id, title, link text and
   * summary from the Japanese version when there is one, else the English;
   * published and updated both the article's date at midnight UTC.
   */
  lemma CombinedEntryContent(baseUrl: string, item: Article)
    requires IsListed(item)
    ensures var (slug, article) := item;
            var e := CombinedEntry(baseUrl, item);
            var meta := if article.ja.Some? then article.ja.value else article.en.value;
            && e.links == (if article.ja.Some? then [AtomEntryLink(ArticleUrl(baseUrl, Ja, slug), Some("ja"))] else [])
                        + (if article.en.Some? then [AtomEntryLink(ArticleUrl(baseUrl, En, slug), Some("en"))] else [])
            && e.id == e.links[0].href
            && e.title == meta.title
            && e.summary == Summary(meta.excerpt, e.id, if article.ja.Some? then "記事を読む" else "Read more")
            && e.updated == ToRfc3339(article.date)
            && e.published == Some(e.updated) && Truthy(e.published)
  {
    PresentLocalesShape(item.1);
    IsListedIff(item);
  }

  /** An entry of a locale's feed: a single link, to the page of that locale, with that `hreflang`. */
  lemma LocaleEntryContent(baseUrl: string, loc: Locale, item: Article)
    requires HasLocale(loc)(item)
    ensures var (slug, article) := item;
            var e := LocaleEntry(baseUrl, loc, item);
            && e.links == [AtomEntryLink(ArticleUrl(baseUrl, loc, slug), Some(Code(loc)))]
            && e.id == e.links[0].href
            && e.title == Meta(article, loc).value.title
            && e.summary == Summary(Meta(article, loc).value.excerpt, e.id, LinkText(loc))
            && e.updated == ToRfc3339(article.date)
            && e.published == Some(e.updated) && Truthy(e.published)
  {
  }

  /** The tracked date is the greatest of the starting date and every article's date, and is one of them. */
  lemma {:induction false} LatestDateIsMax(init: string, items: seq<Article>)
    ensures !Less(LatestDate(init, items), init)
    ensures forall k :: 0 <= k < |items| ==> !Less(LatestDate(init, items), items[k].1.date)
    ensures LatestDate(init, items) == init || exists k :: 0 <= k < |items| && LatestDate(init, items) == items[k].1.date
  {
    if |items| == 0 {
      LessIrreflexive(init);
    } else {
      var front := items[..|items| - 1];
      var latest := LatestDate(init, front);
      var date := items[|items| - 1].1.date;
      LatestDateIsMax(init, front);
      var r := LatestDate(init, items);
      if Less(latest, date) {
        assert r == date;
        forall k | 0 <= k < |items|
          ensures !Less(r, items[k].1.date)
        {
          if k < |items| - 1 {
            assert front[k] == items[k];
            NotLessTransitiveStrict(date, latest, items[k].1.date);
          } else {
            LessIrreflexive(date);
          }
        }
        NotLessTransitiveStrict(date, latest, init);
      } else {
        forall k | 0 <= k < |items|
          ensures !Less(r, items[k].1.date)
        {
          if k < |items| - 1 {
            assert front[k] == items[k];
          }
        }
        if latest != init {
          var k :| 0 <= k < |front| && latest == front[k].1.date;
          assert latest == items[k].1.date;
        }
      }
    }
  }

  /** `b < a` and `b >= c` give `a >= c`. */
  lemma NotLessTransitiveStrict(a: string, b: string, c: string)
    requires Less(b, a) && !Less(b, c)
    ensures !Less(a, c)
  {
    if Less(a, c) {
      LessTransitive(b, a, c);
    }
  }

  /**
   * With ISO dates (all of one length, as the epoch), the feed's `updated`
   * is no older than any entry's: section 4.2.15 of RFC 4287 asks for the
   * most recent significant change.
   */
  lemma FeedUpdatedIsNewest(articles: seq<Article>, now: string)
    requires |articles| > 0
    requires forall item :: item in articles ==> |item.1.date| == |EPOCH|
    ensures forall k :: 0 <= k < |articles| ==> !Less(FeedUpdated(articles, now), ToRfc3339(articles[k].1.date))
  {
    var latest := LatestDate(EPOCH, articles);
    LatestDateIsMax(EPOCH, articles);
    assert |latest| == |EPOCH| by {
      if latest != EPOCH {
        var k :| 0 <= k < |articles| && latest == articles[k].1.date;
        assert articles[k] in articles;
      }
    }
    forall k | 0 <= k < |articles|
      ensures !Less(FeedUpdated(articles, now), ToRfc3339(articles[k].1.date))
    {
      assert articles[k] in articles;
      ToRfc3339KeepsOrder(latest, articles[k].1.date);
    }
  }

  /** A feed's metadata: its id is its own URL, and its author the site. */
  lemma FeedMetaContent(baseUrl: string, loc: Option<Locale>, articles: seq<Article>, now: string)
    ensures var meta := FeedMeta(baseUrl, loc, articles, now);
            && meta.id == meta.selfUrl
            && meta.selfUrl == (if loc.Some? then baseUrl + "/" + Code(loc.value) + "/feed.xml" else baseUrl + "/feed.xml")
            && meta.title == (if loc == Some(Ja) then "tatmius.net ブログ" else "tatmius.net Blog")
            && meta.updated == (if |articles| > 0 then ToRfc3339(LatestDate(EPOCH, articles)) else now)
            && meta.author == Some(AtomAuthor("tatmius", Some(baseUrl), None))
  {
  }

  /** The combined feed's document has one `<entry>` per article of the index that has a locale. */
  lemma CombinedFeedEntryCount(index: seq<Article>, baseUrl: string, now: string)
    ensures var articles := CombinedArticles(index);
            var lines := FeedLines(FeedMeta(baseUrl, None, articles, now), CombinedEntries(baseUrl, articles));
            multiset(lines)[ENTRY_OPEN] == |Filter(IsListed, index)|
  {
    var articles := CombinedArticles(index);
    FeedEntryCount(FeedMeta(baseUrl, None, articles, now), CombinedEntries(baseUrl, articles));
    SortedFilterMultiset(IsListed, index);
    assert |multiset(articles)| == |multiset(Filter(IsListed, index))|;
  }

  /** A locale's feed document has one `<entry>` per article of the index with that locale. */
  lemma LocaleFeedEntryCount(index: seq<Article>, loc: Locale, baseUrl: string, now: string)
    ensures var articles := LocaleArticles(index, loc);
            var lines := FeedLines(FeedMeta(baseUrl, Some(loc), articles, now), LocaleEntries(baseUrl, loc, articles));
            multiset(lines)[ENTRY_OPEN] == |Filter(HasLocale(loc), index)|
  {
    var articles := LocaleArticles(index, loc);
    FeedEntryCount(FeedMeta(baseUrl, Some(loc), articles, now), LocaleEntries(baseUrl, loc, articles));
    assert |multiset(articles)| == |multiset(Filter(HasLocale(loc), index))|;
  }

  // ---------------------------------------------------------------------------
  // `main`: writing the feeds into the exported site
  // ---------------------------------------------------------------------------

  const OUT := "out"
  const FEED_FILE := "feed.xml"
  const HEADERS_FILE := "_headers"
  const LOCALES := [Ja, En]

  /** The site paths of the three feeds. */
  const FEED_PATHS := ["/feed.xml", "/ja/feed.xml", "/en/feed.xml"]
  const ATOM_MEDIA_TYPE := "application/atom+xml; charset=utf-8"
  const ATOM_CONTENT_TYPE_LINE := "  Content-Type: " + ATOM_MEDIA_TYPE

  /** The `_headers` rules: each feed path followed by its Content-Type line, blank lines between. */
  const HEADER_LINES := [
    "/feed.xml", ATOM_CONTENT_TYPE_LINE, "",
    "/ja/feed.xml", ATOM_CONTENT_TYPE_LINE, "",
    "/en/feed.xml", ATOM_CONTENT_TYPE_LINE ]

  const HEADERS_TEXT := Join(HEADER_LINES, "\n")

  /** Every feed path has its own rule, in order, each giving the Atom content type. */
  lemma HeaderRules()
    ensures |HEADER_LINES| == 3 * |FEED_PATHS| - 1
    ensures forall k :: 0 <= k < |FEED_PATHS| ==>
              HEADER_LINES[3 * k] == FEED_PATHS[k] && HEADER_LINES[3 * k + 1] == ATOM_CONTENT_TYPE_LINE
    ensures forall k :: 0 <= k < |FEED_PATHS| - 1 ==> HEADER_LINES[3 * k + 2] == ""
  {
    forall k | 0 <= k < |FEED_PATHS|
      ensures HEADER_LINES[3 * k] == FEED_PATHS[k] && HEADER_LINES[3 * k + 1] == ATOM_CONTENT_TYPE_LINE
    {
      if k == 0 {} else if k == 1 {} else {}
    }
    forall k | 0 <= k < |FEED_PATHS| - 1
      ensures HEADER_LINES[3 * k + 2] == ""
    {
      if k == 0 {} else {}
    }
  }

  /** The file tree under the project root: its directories and its files with their text. */
  datatype FsState = FsState(dirs: set<string>, files: map<string, string>)

  /** `fs.existsSync`: a directory or a file. */
  predicate ExistsAt(st: FsState, path: string)
  {
    path in st.dirs || path in st.files
  }

  function PathJoin(dir: string, name: string): string
  {
    dir + "/" + name
  }

  function LocaleDir(loc: Locale): string
  {
    PathJoin(OUT, Code(loc))
  }

  /**
   * `fs.writeFileSync` of `dir/name`: it throws when `dir` is not a
   * directory or when `dir/name` is one.
   */
  function WriteFile(st: FsState, dir: string, name: string, content: string): Option<FsState>
  {
    var path := PathJoin(dir, name);
    if dir in st.dirs && path !in st.dirs then Some(FsState(st.dirs, st.files[path := content])) else None
  }

  /** `if (!fs.existsSync(dir)) fs.mkdirSync(dir, { recursive: true })`. */
  function MakeDirIfMissing(st: FsState, dir: string): FsState
  {
    if ExistsAt(st, dir) then st else FsState(st.dirs + {dir}, st.files)
  }

  /** How a run ends: normally, on the missing `out/` check, or on a write that throws. */
  datatype Outcome = Completed | MissingOut | WriteFailed

  /** The process exit status: `process.exit(1)`, or 1 for an uncaught exception. */
  function ExitCode(outcome: Outcome): int
  {
    if outcome == Completed then 0 else 1
  }

  /** The locale loop of `main`: each locale's directory made if missing, then its feed written. */
  function WriteLocaleFeeds(st: FsState, locales: seq<Locale>, feeds: seq<string>): (bool, FsState)
    requires |feeds| == |locales|
    decreases |locales|
  {
    if |locales| == 0 then (true, st)
    else
      var dir := LocaleDir(locales[0]);
      var st1 := MakeDirIfMissing(st, dir);
      match WriteFile(st1, dir, FEED_FILE, feeds[0])
      case None => (false, st1)
      case Some(st2) => WriteLocaleFeeds(st2, locales[1..], feeds[1..])
  }

  /** The steps of `main` given the documents it writes: the outcome and the tree it leaves. */
  function RunWrites(st: FsState, allFeed: string, localeFeeds: seq<string>): (Outcome, FsState)
    requires |localeFeeds| == |LOCALES|
  {
    if !ExistsAt(st, OUT) then (MissingOut, st)
    else
      match WriteFile(st, OUT, FEED_FILE, allFeed)
      case None => (WriteFailed, st)
      case Some(st1) =>
        var (finished, st2) := WriteLocaleFeeds(st1, LOCALES, localeFeeds);
        if !finished then (WriteFailed, st2)
        else
          match WriteFile(st2, OUT, HEADERS_FILE, HEADERS_TEXT)
          case None => (WriteFailed, st2)
          case Some(st3) => (Completed, st3)
  }

  /**
   * The values `new Date().toISOString()` gives in the three builds: each
   * build reads the clock on its own, after the writes before it.
   */
  datatype Clock = Clock(combined: string, ja: string, en: string)

  function ReadingFor(clock: Clock, loc: Locale): string
  {
    if loc == Ja then clock.ja else clock.en
  }

  /** The documents of the locale feeds, in the order of `LOCALES`, each with its own clock reading. */
  function LocaleFeeds(index: seq<Article>, baseUrl: string, clock: Clock): (r: seq<string>)
    ensures |r| == |LOCALES|
    ensures forall i :: 0 <= i < |LOCALES| ==> r[i] == LocaleFeedXml(index, LOCALES[i], baseUrl, ReadingFor(clock, LOCALES[i]))
  {
    seq(|LOCALES|, i requires 0 <= i < |LOCALES| => LocaleFeedXml(index, LOCALES[i], baseUrl, ReadingFor(clock, LOCALES[i])))
  }

  /** `main`: the outcome and the file tree it leaves behind. */
  function Generate(st: FsState, index: seq<Article>, baseUrl: string, clock: Clock): (Outcome, FsState)
  {
    RunWrites(st, AllFeedXml(index, baseUrl, clock.combined), LocaleFeeds(index, baseUrl, clock))
  }

  /** The four files `main` writes. */
  function Targets(): set<string>
  {
    {PathJoin(OUT, FEED_FILE), PathJoin(LocaleDir(Ja), FEED_FILE), PathJoin(LocaleDir(En), FEED_FILE),
     PathJoin(OUT, HEADERS_FILE)}
  }

  /**
   * A tree in which every write of `main` succeeds: `out/` is a directory,
   * no target is a directory, and a locale path that is a file is also a
   * directory (on a well-formed tree: no locale path is a file, as
   * `ReadyOnWellFormed` states).
   */
  predicate Ready(st: FsState)
  {
    && OUT in st.dirs
    && (forall p :: p in Targets() ==> p !in st.dirs)
    && (LocaleDir(Ja) in st.files ==> LocaleDir(Ja) in st.dirs)
    && (LocaleDir(En) in st.files ==> LocaleDir(En) in st.dirs)
  }

  /** A tree the file system can hold: no path is both a directory and a file. */
  predicate WellFormed(st: FsState)
  {
    forall p :: p in st.files ==> p !in st.dirs
  }

  /** On a well-formed tree, a ready one is one where neither locale path is a file. */
  lemma ReadyOnWellFormed(st: FsState)
    requires WellFormed(st)
    ensures Ready(st) <==>
              && OUT in st.dirs
              && (forall p :: p in Targets() ==> p !in st.dirs)
              && LocaleDir(Ja) !in st.files
              && LocaleDir(En) !in st.files
  {
  }

  /** The locale loop keeps a tree well formed, however far it gets. */
  lemma {:induction false} WriteLocaleFeedsWellFormed(st: FsState, locales: seq<Locale>, feeds: seq<string>)
    requires WellFormed(st) && |feeds| == |locales|
    ensures WellFormed(WriteLocaleFeeds(st, locales, feeds).1)
    decreases |locales|
  {
    if |locales| > 0 {
      var dir := LocaleDir(locales[0]);
      var st1 := MakeDirIfMissing(st, dir);
      assert WellFormed(st1);
      match WriteFile(st1, dir, FEED_FILE, feeds[0])
      case None =>
      case Some(st2) =>
        WriteLocaleFeedsWellFormed(st2, locales[1..], feeds[1..]);
    }
  }

  /** `main` leaves a well-formed tree well formed, whatever its outcome. */
  lemma RunWritesWellFormed(st: FsState, allFeed: string, localeFeeds: seq<string>)
    requires WellFormed(st) && |localeFeeds| == |LOCALES|
    ensures WellFormed(RunWrites(st, allFeed, localeFeeds).1)
  {
    if ExistsAt(st, OUT) {
      match WriteFile(st, OUT, FEED_FILE, allFeed)
      case None =>
      case Some(st1) =>
        WriteLocaleFeedsWellFormed(st1, LOCALES, localeFeeds);
    }
  }

  lemma LocalePathsDistinct()
    ensures LocaleDir(Ja) != LocaleDir(En)
    ensures LocaleDir(Ja) != OUT && LocaleDir(En) != OUT
    ensures PathJoin(OUT, FEED_FILE) != LocaleDir(Ja) && PathJoin(OUT, FEED_FILE) != LocaleDir(En)
    ensures PathJoin(LocaleDir(Ja), FEED_FILE) != LocaleDir(En)
    ensures |Targets()| == 4
  {
    assert LocaleDir(Ja)[4] == 'j' && LocaleDir(En)[4] == 'e';
    assert PathJoin(OUT, FEED_FILE)[4] == 'f';
    assert PathJoin(OUT, HEADERS_FILE)[4] == '_';
    assert |LocaleDir(Ja)| == 6 && |PathJoin(LocaleDir(Ja), FEED_FILE)| == 15;
    assert PathJoin(LocaleDir(En), FEED_FILE)[4] == 'e';
  }

  /** Without `out/`, `main` stops with status 1 and writes nothing. */
  lemma GenerateMissingOut(st: FsState, index: seq<Article>, baseUrl: string, clock: Clock)
    ensures Generate(st, index, baseUrl, clock).0 == MissingOut <==> !ExistsAt(st, OUT)
    ensures !ExistsAt(st, OUT) ==> Generate(st, index, baseUrl, clock).1 == st
  {
    RunWritesMissingOut(st, AllFeedXml(index, baseUrl, clock.combined),
                        LocaleFeeds(index, baseUrl, clock));
  }

  lemma RunWritesMissingOut(st: FsState, allFeed: string, localeFeeds: seq<string>)
    requires |localeFeeds| == |LOCALES|
    ensures RunWrites(st, allFeed, localeFeeds).0 == MissingOut <==> !ExistsAt(st, OUT)
    ensures !ExistsAt(st, OUT) ==> RunWrites(st, allFeed, localeFeeds).1 == st
  {
    if ExistsAt(st, OUT) {
      var r := RunWrites(st, allFeed, localeFeeds);
      assert r.0 != MissingOut;
    }
  }

  /** The locale loop on a ready tree: both directories exist and both feeds are written. */
  lemma LocaleLoopOnReady(st: FsState, st1: FsState, feeds: seq<string>)
    requires Ready(st) && |feeds| == 2
    requires st1.dirs == st.dirs && PathJoin(OUT, FEED_FILE) in st1.files
    requires forall p :: p in st1.files ==> p in st.files || p == PathJoin(OUT, FEED_FILE)
    ensures WriteLocaleFeeds(st1, LOCALES, feeds)
         == (true, FsState(st.dirs + {LocaleDir(Ja), LocaleDir(En)},
                           st1.files[PathJoin(LocaleDir(Ja), FEED_FILE) := feeds[0]]
                                    [PathJoin(LocaleDir(En), FEED_FILE) := feeds[1]]))
  {
    LocalePathsDistinct();
    var ja := MakeDirIfMissing(st1, LocaleDir(Ja));
    assert ja.dirs == st.dirs + {LocaleDir(Ja)};
    var st2 := WriteFile(ja, LocaleDir(Ja), FEED_FILE, feeds[0]).value;
    var en := MakeDirIfMissing(st2, LocaleDir(En));
    assert en.dirs == st.dirs + {LocaleDir(Ja), LocaleDir(En)};
    assert LOCALES[1..] == [En] && [En][1..] == [];
  }

  /**
   * On a ready tree, `main` completes: the three feeds and `_headers` are
   * written, and each locale directory exists afterwards.
   */
  lemma RunWritesCompletes(st: FsState, allFeed: string, localeFeeds: seq<string>)
    requires Ready(st) && |localeFeeds| == |LOCALES|
    ensures RunWrites(st, allFeed, localeFeeds)
         == (Completed,
             FsState(st.dirs + {LocaleDir(Ja), LocaleDir(En)},
                     st.files[PathJoin(OUT, FEED_FILE) := allFeed]
                             [PathJoin(LocaleDir(Ja), FEED_FILE) := localeFeeds[0]]
                             [PathJoin(LocaleDir(En), FEED_FILE) := localeFeeds[1]]
                             [PathJoin(OUT, HEADERS_FILE) := HEADERS_TEXT]))
  {
    LocalePathsDistinct();
    var st1 := WriteFile(st, OUT, FEED_FILE, allFeed).value;
    LocaleLoopOnReady(st, st1, localeFeeds);
  }

  lemma GenerateCompletes(st: FsState, index: seq<Article>, baseUrl: string, clock: Clock)
    requires Ready(st)
    ensures Generate(st, index, baseUrl, clock)
         == (Completed,
             FsState(st.dirs + {LocaleDir(Ja), LocaleDir(En)},
                     st.files[PathJoin(OUT, FEED_FILE) := AllFeedXml(index, baseUrl, clock.combined)]
                             [PathJoin(LocaleDir(Ja), FEED_FILE) := LocaleFeedXml(index, Ja, baseUrl, clock.ja)]
                             [PathJoin(LocaleDir(En), FEED_FILE) := LocaleFeedXml(index, En, baseUrl, clock.en)]
                             [PathJoin(OUT, HEADERS_FILE) := HEADERS_TEXT]))
  {
    RunWritesCompletes(st, AllFeedXml(index, baseUrl, clock.combined),
                       LocaleFeeds(index, baseUrl, clock));
  }

  /** Every write succeeds exactly on a ready tree. */
  lemma RunWritesCompletedIff(st: FsState, allFeed: string, localeFeeds: seq<string>)
    requires |localeFeeds| == |LOCALES|
    ensures RunWrites(st, allFeed, localeFeeds).0 == Completed <==> Ready(st)
  {
    if Ready(st) {
      RunWritesCompletes(st, allFeed, localeFeeds);
    } else if RunWrites(st, allFeed, localeFeeds).0 == Completed {
      LocalePathsDistinct();
      assert false;
    }
  }

  /** `main` exits with status 0 exactly on a ready tree. */
  lemma GenerateCompletedIff(st: FsState, index: seq<Article>, baseUrl: string, clock: Clock)
    ensures Generate(st, index, baseUrl, clock).0 == Completed <==> Ready(st)
    ensures ExitCode(Generate(st, index, baseUrl, clock).0) == 0 <==> Ready(st)
  {
    RunWritesCompletedIff(st, AllFeedXml(index, baseUrl, clock.combined),
                          LocaleFeeds(index, baseUrl, clock));
  }

  lemma DropOne<T>(s: seq<T>, i: nat)
    requires i < |s|
    ensures s[i..][1..] == s[i + 1..]
  {
  }

  /** One iteration of the locale loop, for any documents. */
  lemma LocaleLoopStep(st0: FsState, feeds: seq<string>, i: nat, st: FsState, st': FsState, ok: bool)
    requires |feeds| == |LOCALES| && i < |LOCALES|
    requires WriteLocaleFeeds(st0, LOCALES, feeds) == WriteLocaleFeeds(st, LOCALES[i..], feeds[i..])
    requires var dir := LocaleDir(LOCALES[i]);
             var w := WriteFile(MakeDirIfMissing(st, dir), dir, FEED_FILE, feeds[i]);
             ok == w.Some? && st' == (if ok then w.value else MakeDirIfMissing(st, dir))
    ensures ok ==> WriteLocaleFeeds(st0, LOCALES, feeds) == WriteLocaleFeeds(st', LOCALES[i + 1..], feeds[i + 1..])
    ensures !ok ==> WriteLocaleFeeds(st0, LOCALES, feeds) == (false, st')
  {
    DropOne(LOCALES, i);
    DropOne(feeds, i);
  }

  /** The file tree on which the script runs, updated in place by its writes. */
  class ExportTree {
    var dirs: set<string>
    var files: map<string, string>

    function State(): FsState
      reads this
    {
      FsState(dirs, files)
    }

    constructor (st: FsState)
      ensures State() == st
    {
      dirs := st.dirs;
      files := st.files;
    }

    method WriteFileSync(dir: string, name: string, content: string) returns (ok: bool)
      modifies this
      ensures ok == WriteFile(old(State()), dir, name, content).Some?
      ensures State() == if ok then WriteFile(old(State()), dir, name, content).value else old(State())
    {
      var path := dir + "/" + name;
      ok := dir in dirs && path !in dirs;
      if ok {
        files := files[path := content];
      }
    }

    method MkdirSync(dir: string)
      modifies this
      ensures State() == FsState(old(dirs) + {dir}, old(files))
    {
      dirs := dirs + {dir};
    }

    /** `main`, with the base URL and the three clock readings as parameters. */
    method RunGenerator(index: seq<Article>, baseUrl: string, clock: Clock) returns (outcome: Outcome)
      modifies this
      ensures (outcome, State()) == Generate(old(State()), index, baseUrl, clock)
    {
      if !(OUT in dirs || OUT in files) {
        return MissingOut;
      }

      var allFeed := BuildAllFeed(index, baseUrl, clock.combined);
      var ok := WriteFileSync(OUT, FEED_FILE, allFeed);
      if !ok {
        return WriteFailed;
      }

      ok := WriteLocaleFeedFiles(index, baseUrl, clock, LocaleFeeds(index, baseUrl, clock));
      if !ok {
        return WriteFailed;
      }

      ok := WriteFileSync(OUT, HEADERS_FILE, HEADERS_TEXT);
      if !ok {
        return WriteFailed;
      }
      outcome := Completed;
    }

    /** The locale loop of `main`: stops at the first write that throws. */
    method WriteLocaleFeedFiles(index: seq<Article>, baseUrl: string, clock: Clock, ghost feeds: seq<string>) returns (ok: bool)
      requires |feeds| == |LOCALES|
      requires forall i :: 0 <= i < |LOCALES| ==> feeds[i] == LocaleFeedXml(index, LOCALES[i], baseUrl, ReadingFor(clock, LOCALES[i]))
      modifies this
      ensures (ok, State()) == WriteLocaleFeeds(old(State()), LOCALES, feeds)
    {
      ok := true;
      for i := 0 to |LOCALES|
        invariant WriteLocaleFeeds(old(State()), LOCALES, feeds) == WriteLocaleFeeds(State(), LOCALES[i..], feeds[i..])
      {
        ghost var before := State();
        var locale := LOCALES[i];
        var dir := OUT + "/" + Code(locale);
        if !(dir in dirs || dir in files) {
          MkdirSync(dir);
        }
        var localeFeed := BuildLocaleFeed(index, locale, baseUrl, ReadingFor(clock, locale));
        assert localeFeed == feeds[i];
        ok := WriteFileSync(dir, FEED_FILE, localeFeed);
        LocaleLoopStep(old(State()), feeds, i, before, State(), ok);
        if !ok {
          return;
        }
      }
    }
  }
}
