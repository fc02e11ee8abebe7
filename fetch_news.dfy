/**
 * The security-news script: take the first five entries of every RSS feed,
 * turn each into an article record, and list all articles in descending
 * order of their `published` strings (Python string order).
 *
 * The feeds come in already parsed, as (source name, entries) pairs in the
 * order of the feed table; the day of the run is the argument `today`.
 */
module FetchNews {
  import opened Wrappers
  import opened Seqs
  import opened Text

  /** A parsed feed entry; `published` is absent when the feed does not give it. */
  datatype Entry = Entry(title: string, link: string, published: Option<string>)

  /** The article record built for one entry. */
  datatype Article = Article(title: string, link: string, published: string, source: string)

  /** A source name with the entries its feed yielded. */
  type Feed = (string, seq<Entry>)

  /** Entries taken from each feed (`feed.entries[:5]`). */
  const MaxPerSource: nat := 5

  /** The feed table: source name and feed address, in iteration order. */
  const RssFeeds: seq<(string, string)> := [
    ("The Hacker News", "https://feeds.feedburner.com/TheHackersNews"),
    ("BleepingComputer", "https://www.bleepingcomputer.com/feed/"),
    ("Security Affairs", "https://securityaffairs.com/feed")
  ]

  /** The record for one entry of `source`; a missing `published` becomes `today`. */
  function ToArticle(e: Entry, source: string, today: string): Article {
    Article(e.title, e.link, e.published.GetOr(today), source)
  }

  /** `entries[:5]`: the first five entries, or all of them when there are fewer. */
  function Taken(entries: seq<Entry>): (r: seq<Entry>)
    ensures r <= entries
    ensures |r| == if |entries| <= MaxPerSource then |entries| else MaxPerSource
  {
    if |entries| <= MaxPerSource then entries else entries[..MaxPerSource]
  }

  /** The records of `entries`, one per entry and in entry order. */
  function Articles(source: string, entries: seq<Entry>, today: string): (r: seq<Article>)
    ensures |r| == |entries|
    ensures forall j :: 0 <= j < |entries| ==> r[j] == ToArticle(entries[j], source, today)
    decreases |entries|
  {
    if entries == [] then []
    else Articles(source, entries[..|entries| - 1], today) + [ToArticle(entries[|entries| - 1], source, today)]
  }

  /** The number of articles the feeds contribute: at most five per feed. */
  function TakenCount(feeds: seq<Feed>): nat
    decreases |feeds|
  {
    if feeds == [] then 0 else TakenCount(feeds[..|feeds| - 1]) + |Taken(feeds[|feeds| - 1].1)|
  }

  /** At most five articles per feed. */
  lemma {:induction false} TakenCountBound(feeds: seq<Feed>)
    ensures TakenCount(feeds) <= MaxPerSource * |feeds|
    decreases |feeds|
  {
    if feeds != [] {
      TakenCountBound(feeds[..|feeds| - 1]);
    }
  }

  /** The articles in collection order: feed by feed, and within a feed entry by entry. */
  function Collected(feeds: seq<Feed>, today: string): (r: seq<Article>)
    ensures |r| == TakenCount(feeds)
    decreases |feeds|
  {
    if feeds == [] then []
    else
      var last := feeds[|feeds| - 1];
      Collected(feeds[..|feeds| - 1], today) + Articles(last.0, Taken(last.1), today)
  }

  /** The collecting loops of `fetch_news_items`. */
  method CollectArticles(feeds: seq<Feed>, today: string) returns (articles: seq<Article>)
    ensures articles == Collected(feeds, today)
  {
    articles := [];
    for i := 0 to |feeds|
      invariant articles == Collected(feeds[..i], today)
    {
      var (source, entries) := feeds[i];
      var taken := Taken(entries);
      ghost var before := articles;
      for j := 0 to |taken|
        invariant articles == before + Articles(source, taken[..j], today)
      {
        assert taken[..j + 1][..j] == taken[..j];
        articles := articles + [ToArticle(taken[j], source, today)];
      }
      assert taken[..|taken|] == taken;
      assert feeds[..i + 1][..i] == feeds[..i];
    }
    assert feeds[..|feeds|] == feeds;
  }

  /** The articles of the last feed follow those of the earlier feeds. */
  lemma CollectedLast(feeds: seq<Feed>, today: string, j: nat)
    requires feeds != [] && j < |Taken(feeds[|feeds| - 1].1)|
    ensures var n := |feeds| - 1;
      && TakenCount(feeds[..n]) + j < |Collected(feeds, today)|
      && Collected(feeds, today)[TakenCount(feeds[..n]) + j] == ToArticle(feeds[n].1[j], feeds[n].0, today)
  {
    var n := |feeds| - 1;
    var front := Collected(feeds[..n], today);
    var last := Articles(feeds[n].0, Taken(feeds[n].1), today);
    assert Collected(feeds, today) == front + last;
    assert |front| == TakenCount(feeds[..n]);
    assert last[j] == ToArticle(feeds[n].1[j], feeds[n].0, today) by {
      assert Taken(feeds[n].1)[j] == feeds[n].1[j];
    }
    assert (front + last)[|front| + j] == last[j];
  }

  /** The articles of the first `m` feeds begin the collection of all feeds. */
  lemma {:induction false} CollectedPrefix(feeds: seq<Feed>, today: string, m: nat)
    requires m <= |feeds|
    ensures Collected(feeds[..m], today) <= Collected(feeds, today)
    decreases |feeds|
  {
    if m == |feeds| {
      assert feeds[..m] == feeds;
    } else {
      var n := |feeds| - 1;
      assert feeds[..n][..m] == feeds[..m];
      CollectedPrefix(feeds[..n], today, m);
      var front := Collected(feeds[..n], today);
      assert Collected(feeds, today) == front + Articles(feeds[n].0, Taken(feeds[n].1), today);
      assert front <= Collected(feeds, today);
    }
  }

  /** Entry `j` of feed `i` becomes the article after those of the earlier feeds and its own first `j`. */
  lemma CollectedIndex(feeds: seq<Feed>, today: string, i: nat, j: nat)
    requires i < |feeds| && j < |Taken(feeds[i].1)|
    ensures TakenCount(feeds[..i]) + j < |Collected(feeds, today)|
    ensures Collected(feeds, today)[TakenCount(feeds[..i]) + j] == ToArticle(feeds[i].1[j], feeds[i].0, today)
  {
    var pre := feeds[..i + 1];
    assert pre[..i] == feeds[..i] && pre[i] == feeds[i];
    CollectedLast(pre, today, j);
    CollectedPrefix(feeds, today, i + 1);
    var k := TakenCount(feeds[..i]) + j;
    assert Collected(pre, today)[k] == ToArticle(feeds[i].1[j], feeds[i].0, today);
  }

  /**
   * Where each entry lands: entry `j` (one of the first five) of feed `i` is the
   * article at position `j` after the articles of the earlier feeds, with the
   * entry's title and link, its `published` or else `today`, and the feed's name
   * as `source`.
   */
  lemma CollectedAt(feeds: seq<Feed>, today: string, i: nat, j: nat)
    requires i < |feeds| && j < |Taken(feeds[i].1)|
    ensures TakenCount(feeds[..i]) + j < |Collected(feeds, today)|
    ensures var e := feeds[i].1[j];
      Collected(feeds, today)[TakenCount(feeds[..i]) + j]
      == Article(e.title, e.link, if e.published.Some? then e.published.value else today, feeds[i].0)
  {
    CollectedIndex(feeds, today, i, j);
  }

  // ---------------------------------------------------------------------------
  // Articles of one source
  // ---------------------------------------------------------------------------

  /** The test "the article comes from `src`". */
  function SourceIs(src: string): Article -> bool {
    (a: Article) => a.source == src
  }

  /** The articles whose `source` is `src`, in order. */
  function FromSource(s: seq<Article>, src: string): seq<Article> {
    Filter(SourceIs(src), s)
  }

  /** Permuting the articles keeps the number from each source. */
  lemma FromSourcePermutation(r: seq<Article>, s: seq<Article>, src: string)
    requires multiset(r) == multiset(s)
    ensures |FromSource(r, src)| == |FromSource(s, src)|
  {
    forall x ensures multiset(FromSource(r, src))[x] == multiset(FromSource(s, src))[x] {
      FilterMultiset(SourceIs(src), r, x);
      FilterMultiset(SourceIs(src), s, x);
    }
    assert multiset(FromSource(r, src)) == multiset(FromSource(s, src));
  }

  /** The records of one feed carry its name. */
  lemma {:induction false} ArticlesFromSource(source: string, entries: seq<Entry>, today: string, src: string)
    ensures FromSource(Articles(source, entries, today), src)
         == if source == src then Articles(source, entries, today) else []
    decreases |entries|
  {
    if entries != [] {
      var n := |entries| - 1;
      ArticlesFromSource(source, entries[..n], today, src);
      FilterConcat(SourceIs(src), Articles(source, entries[..n], today), [ToArticle(entries[n], source, today)]);
    }
  }

  /** No article names a source that is not in the feed table. */
  lemma {:induction false} CollectedSourceAbsent(feeds: seq<Feed>, today: string, src: string)
    requires forall i :: 0 <= i < |feeds| ==> feeds[i].0 != src
    ensures FromSource(Collected(feeds, today), src) == []
    decreases |feeds|
  {
    if feeds != [] {
      var n := |feeds| - 1;
      CollectedSourceAbsent(feeds[..n], today, src);
      FilterConcat(SourceIs(src), Collected(feeds[..n], today), Articles(feeds[n].0, Taken(feeds[n].1), today));
      ArticlesFromSource(feeds[n].0, Taken(feeds[n].1), today, src);
    }
  }

  /** The source names of the feeds are pairwise different (keys of a dict). */
  predicate DistinctSources(feeds: seq<Feed>) {
    forall i, j :: 0 <= i < j < |feeds| ==> feeds[i].0 != feeds[j].0
  }

  /** With distinct source names, at most five articles come from any one source. */
  lemma {:induction false} CollectedCap(feeds: seq<Feed>, today: string, src: string)
    requires DistinctSources(feeds)
    ensures |FromSource(Collected(feeds, today), src)| <= MaxPerSource
    decreases |feeds|
  {
    if feeds != [] {
      var n := |feeds| - 1;
      var init := feeds[..n];
      var front := Collected(init, today);
      var last := Articles(feeds[n].0, Taken(feeds[n].1), today);
      assert Collected(feeds, today) == front + last;
      FilterConcat(SourceIs(src), front, last);
      ArticlesFromSource(feeds[n].0, Taken(feeds[n].1), today, src);
      assert |FromSource(last, src)| <= MaxPerSource;
      if feeds[n].0 == src {
        assert forall i :: 0 <= i < |init| ==> init[i].0 != src by {
          forall i | 0 <= i < |init| ensures init[i].0 != src {
            assert init[i] == feeds[i];
          }
        }
        CollectedSourceAbsent(init, today, src);
      } else {
        assert DistinctSources(init) by {
          forall i, j | 0 <= i < j < |init| ensures init[i].0 != init[j].0 {
            assert init[i] == feeds[i] && init[j] == feeds[j];
          }
        }
        CollectedCap(init, today, src);
        assert FromSource(last, src) == [];
      }
    }
  }

  // ---------------------------------------------------------------------------
  // sorted(articles, key=published, reverse=True)
  // ---------------------------------------------------------------------------

  /**
   * Descending by the `published` string: no later article has a `published`
   * string above (in Python string order) that of an earlier one.
   */
  predicate PublishedDescending(s: seq<Article>) {
    forall i, j :: 0 <= i < j < |s| ==> LexLe(s[j].published, s[i].published)
  }

  /** The test "the article's `published` is `k`". */
  function PublishedIs(k: string): Article -> bool {
    (a: Article) => a.published == k
  }

  /** The articles whose `published` is `k`, in order. */
  function WithPublished(s: seq<Article>, k: string): seq<Article> {
    Filter(PublishedIs(k), s)
  }

  /** Articles with equal `published` appear in `r` in the same order as in `s`. */
  ghost predicate SameTies(r: seq<Article>, s: seq<Article>) {
    forall k :: WithPublished(r, k) == WithPublished(s, k)
  }

  /**
   * Puts `x` before the first article whose `published` string is not greater
   * than that of `x` (Python string order).
   */
  function Insert(x: Article, s: seq<Article>): seq<Article>
    decreases |s|
  {
    if s == [] then [x]
    else if LexLe(s[0].published, x.published) then [x] + s
    else [s[0]] + Insert(x, s[1..])
  }

  /** `sorted(s, key=lambda a: a["published"], reverse=True)`: a stable sort in descending `published` string order. */
  function SortByPublishedDesc(s: seq<Article>): seq<Article>
    decreases |s|
  {
    if s == [] then [] else Insert(s[0], SortByPublishedDesc(s[1..]))
  }

  lemma {:induction false} InsertMultiset(x: Article, s: seq<Article>)
    ensures multiset(Insert(x, s)) == multiset(s) + multiset{x}
    decreases |s|
  {
    if s != [] && !LexLe(s[0].published, x.published) {
      InsertMultiset(x, s[1..]);
      assert s == [s[0]] + s[1..];
    }
  }

  lemma {:induction false} InsertPublishedDescending(x: Article, s: seq<Article>)
    requires PublishedDescending(s)
    ensures PublishedDescending(Insert(x, s))
    decreases |s|
  {
    if s != [] {
      if LexLe(s[0].published, x.published) {
        forall j | 0 <= j < |s| ensures LexLe(s[j].published, x.published) {
          if j > 0 { LexLeTransitive(s[j].published, s[0].published, x.published); }
        }
      } else {
        var t := Insert(x, s[1..]);
        InsertPublishedDescending(x, s[1..]);
        InsertMultiset(x, s[1..]);
        LexLeTotal(s[0].published, x.published);
        forall j | 0 <= j < |t| ensures LexLe(t[j].published, s[0].published) {
          assert t[j] in multiset(t);
          if t[j] != x {
            assert t[j] in multiset(s[1..]);
            var m :| 0 <= m < |s[1..]| && s[1..][m] == t[j];
            assert s[m + 1] == t[j];
          }
        }
        assert Insert(x, s) == [s[0]] + t;
      }
    }
  }

  lemma {:induction false} InsertTies(x: Article, s: seq<Article>, k: string)
    ensures WithPublished(Insert(x, s), k)
         == (if x.published == k then [x] else []) + WithPublished(s, k)
    decreases |s|
  {
    var pre: seq<Article> := if x.published == k then [x] else [];
    if s == [] {
      assert Insert(x, s) == [x];
      assert WithPublished([x], k) == pre + WithPublished([x][1..], k);
    } else if LexLe(s[0].published, x.published) {
      var t := [x] + s;
      assert Insert(x, s) == t;
      assert t[0] == x && t[1..] == s;
      assert WithPublished(t, k) == pre + WithPublished(s, k);
    } else {
      var u := Insert(x, s[1..]);
      var t := [s[0]] + u;
      assert Insert(x, s) == t;
      InsertTies(x, s[1..], k);
      LexLeReflexive(x.published);
      assert s[0].published != x.published;
      assert t[0] == s[0] && t[1..] == u;
      var h: seq<Article> := if s[0].published == k then [s[0]] else [];
      assert WithPublished(t, k) == h + WithPublished(u, k);
      assert WithPublished(s, k) == h + WithPublished(s[1..], k);
      assert h == [] || pre == [];
    }
  }

  /** The sort result is a permutation of its input. */
  lemma {:induction false} SortPermutation(s: seq<Article>)
    ensures multiset(SortByPublishedDesc(s)) == multiset(s)
    decreases |s|
  {
    if s != [] {
      SortPermutation(s[1..]);
      InsertMultiset(s[0], SortByPublishedDesc(s[1..]));
      assert s == [s[0]] + s[1..];
    }
  }

  /** The sort result is in descending `published` string order. */
  lemma {:induction false} SortOrdered(s: seq<Article>)
    ensures PublishedDescending(SortByPublishedDesc(s))
    decreases |s|
  {
    if s != [] {
      SortOrdered(s[1..]);
      InsertPublishedDescending(s[0], SortByPublishedDesc(s[1..]));
    }
  }

  /** The sort is stable: articles with equal `published` keep their input order. */
  lemma {:induction false} SortStable(s: seq<Article>, k: string)
    ensures WithPublished(SortByPublishedDesc(s), k) == WithPublished(s, k)
    decreases |s|
  {
    if s != [] {
      SortStable(s[1..], k);
      InsertTies(s[0], SortByPublishedDesc(s[1..]), k);
    }
  }

  lemma {:induction false} WithPublishedMembers(s: seq<Article>, k: string, x: Article)
    requires x in WithPublished(s, k)
    ensures x in s && x.published == k
    decreases |s|
  {
    if s[0].published != k || x != s[0] {
      if s[0].published == k {
        assert WithPublished(s, k) == [s[0]] + WithPublished(s[1..], k);
      }
      WithPublishedMembers(s[1..], k, x);
    }
  }

  /** The first `published` of a descending list is at least every `published` in it. */
  lemma PublishedDescendingHead(s: seq<Article>, x: Article)
    requires PublishedDescending(s) && x in s
    ensures LexLe(x.published, s[0].published)
  {
    var m :| 0 <= m < |s| && s[m] == x;
    if m == 0 { LexLeReflexive(x.published); }
  }

  /** Lists with the same ties are empty together. */
  lemma TiesEmpty(r: seq<Article>, s: seq<Article>)
    requires SameTies(r, s)
    ensures r != [] ==> s != []
  {
    if r != [] {
      assert WithPublished(r, r[0].published) != [];
    }
  }

  /**
   * Descending order and the order among ties determine the list: two
   * descending lists with the same ties are equal.
   */
  lemma {:induction false} TiesDetermineOrder(r: seq<Article>, s: seq<Article>)
    requires PublishedDescending(r) && PublishedDescending(s) && SameTies(r, s)
    ensures r == s
    decreases |r| + |s|
  {
    TiesEmpty(r, s);
    TiesEmpty(s, r);
    if r != [] && s != [] {
      var a, b := r[0], s[0];
      var ka, kb := a.published, b.published;
      assert WithPublished(r, ka) == [a] + WithPublished(r[1..], ka);
      assert WithPublished(s, kb) == [b] + WithPublished(s[1..], kb);
      WithPublishedMembers(s, ka, WithPublished(s, ka)[0]);
      PublishedDescendingHead(s, WithPublished(s, ka)[0]);
      WithPublishedMembers(r, kb, WithPublished(r, kb)[0]);
      PublishedDescendingHead(r, WithPublished(r, kb)[0]);
      LexLeAntisymmetric(ka, kb);
      assert a == b;
      forall k ensures WithPublished(r[1..], k) == WithPublished(s[1..], k) {
        var h: seq<Article> := if a.published == k then [a] else [];
        var x, y := WithPublished(r[1..], k), WithPublished(s[1..], k);
        assert WithPublished(r, k) == h + x;
        assert WithPublished(s, k) == h + y;
        assert WithPublished(r, k) == WithPublished(s, k);
        assert x == (h + x)[|h|..] && y == (h + y)[|h|..];
      }
      TiesDetermineOrder(r[1..], s[1..]);
      assert r == [a] + r[1..] && s == [b] + s[1..];
    }
  }

  /**
   * The sort result is the only descending list that has the same ties as the
   * input: what a stable sort in descending order must return.
   */
  lemma StableSortUnique(r: seq<Article>, s: seq<Article>)
    requires PublishedDescending(r) && SameTies(r, s)
    ensures r == SortByPublishedDesc(s)
  {
    SortOrdered(s);
    forall k ensures WithPublished(r, k) == WithPublished(SortByPublishedDesc(s), k) {
      SortStable(s, k);
    }
    TiesDetermineOrder(r, SortByPublishedDesc(s));
  }

  /** The string starts with an ASCII letter, as an RFC 822 date's weekday name does. */
  predicate StartsWithLetter(p: string) {
    p != [] && ('A' <= p[0] <= 'Z' || 'a' <= p[0] <= 'z')
  }

  /** The string starts with a decimal digit, as the `%Y-%m-%d` date `today` does. */
  predicate StartsWithDigit(p: string) {
    p != [] && '0' <= p[0] <= '9'
  }

  /**
   * The order is that of the strings, not of the dates: in a descending list an
   * article whose `published` starts with a letter (an RFC 822 date such as
   * `Tue, 14 Oct 2025 ...`) comes before every article whose `published` starts
   * with a digit (such as the `today` default).
   */
  lemma LettersBeforeDigits(s: seq<Article>, i: nat, j: nat)
    requires PublishedDescending(s) && i < |s| && j < |s|
    requires StartsWithLetter(s[i].published) && StartsWithDigit(s[j].published)
    ensures i < j
  {
  }

  // ---------------------------------------------------------------------------
  // fetch_news_items
  // ---------------------------------------------------------------------------

  /**
   * `fetch_news_items`: the collected articles, as a permutation in descending
   * `published` string order that keeps the collection order among equal
   * `published` values; with distinct feed names at most five come from each
   * source.
   */
  method FetchNewsItems(feeds: seq<Feed>, today: string) returns (articles: seq<Article>)
    ensures multiset(articles) == multiset(Collected(feeds, today))
    ensures PublishedDescending(articles)
    ensures SameTies(articles, Collected(feeds, today))
    ensures articles == SortByPublishedDesc(Collected(feeds, today))
    ensures |articles| <= MaxPerSource * |feeds|
    ensures DistinctSources(feeds) ==> forall src :: |FromSource(articles, src)| <= MaxPerSource
  {
    var collected := CollectArticles(feeds, today);
    articles := SortByPublishedDesc(collected);
    SortPermutation(collected);
    SortOrdered(collected);
    forall k ensures WithPublished(articles, k) == WithPublished(collected, k) {
      SortStable(collected, k);
    }
    assert |articles| == |multiset(articles)| == |collected|;
    TakenCountBound(feeds);
    if DistinctSources(feeds) {
      forall src ensures |FromSource(articles, src)| <= MaxPerSource {
        FromSourcePermutation(articles, collected, src);
        CollectedCap(feeds, today, src);
      }
    }
  }

  /** The feeds of the script's own feed table, in its order. */
  predicate FromFeedTable(feeds: seq<Feed>) {
    |feeds| == |RssFeeds| && forall i :: 0 <= i < |feeds| ==> feeds[i].0 == RssFeeds[i].0
  }

  /** The feed table's names differ (already in their first letters). */
  lemma FeedTableDistinct(feeds: seq<Feed>)
    requires FromFeedTable(feeds)
    ensures DistinctSources(feeds)
  {
    var names := seq(|RssFeeds|, i requires 0 <= i < |RssFeeds| => RssFeeds[i].0);
    assert names[0][0] == 'T' && names[1][0] == 'B' && names[2][0] == 'S';
    forall i, j | 0 <= i < j < |feeds| ensures feeds[i].0 != feeds[j].0 {
      assert feeds[i].0 == names[i] && feeds[j].0 == names[j];
    }
  }

  /** For the script's three feeds: at most fifteen articles, at most five per source. */
  lemma FeedTableCap(feeds: seq<Feed>, today: string)
    requires FromFeedTable(feeds)
    ensures |SortByPublishedDesc(Collected(feeds, today))| <= 15
    ensures forall src :: |FromSource(SortByPublishedDesc(Collected(feeds, today)), src)| <= MaxPerSource
  {
    var collected := Collected(feeds, today);
    SortPermutation(collected);
    assert |SortByPublishedDesc(collected)| == |multiset(SortByPublishedDesc(collected))| == |collected|;
    TakenCountBound(feeds);
    FeedTableDistinct(feeds);
    forall src ensures |FromSource(SortByPublishedDesc(collected), src)| <= MaxPerSource {
      FromSourcePermutation(SortByPublishedDesc(collected), collected, src);
      CollectedCap(feeds, today, src);
    }
  }
}
