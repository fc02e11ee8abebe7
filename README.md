# Daily IOC and security-news pages: a Dafny model

This project models the data-handling core of two scripts that publish a static site.

- `fetch_iocs.py` builds the daily indicator-of-compromise (IOC) report. It downloads three
  feeds: the Feodo Tracker IP block list, the MalwareBazaar list of recent SHA-256 hashes and
  the ThreatFox recent-IOC API. It keeps the useful lines or values and defangs addresses by
  writing every `.` as `[.]`. It renders each list with `html_list`, then adds the day's link
  to the archive index page when the index exists and has a `<ul>`, unless the link is
  already there; an existing index without the link is written back even when it has no `<ul>`.
- `fetch_news.py` reads three RSS feeds. It takes the first five entries of each and turns
  them into article records, putting in the day's date where an entry has no `published`
  value. It then lists all articles in descending order of their `published` strings
  (Python string order), using a stable sort.

Every network answer, parsed feed and file is an argument of the model:

- a downloaded text is the sequence of its lines;
- the ThreatFox answer is a decoded JSON reply (`FetchIocs.Reply`);
- a parsed RSS feed is a source name with its entries (`FetchNews.Feed`);
- the archive index is its text, and the run's date is the string `today`.

Modules:

- `Wrappers`: the `Option` type.
- `Seqs`: filter, map and the subsequence relation, with their lemmas.
- `Text`: the Python string operations the scripts use: `startswith`, `strip`-blankness,
  `split(",")[0]` (`FirstField`), `replace(".", "[.]")` (`Defang`), `in` (`Contains`),
  `replace(..., 1)` (`ReplaceFirst`), `"\n".join` (`Join`) and code-point string order
  (`LexLe`). `FindFirst` is the search for the first occurrence that `in` and
  `replace(..., 1)` perform. `Refang` (the inverse of `Defang`) and `Split` (the inverse of
  `Join`) are not used by the scripts; they state that nothing is lost.
- `FetchIocs`: the model of `fetch_iocs.py`.
- `FetchNews`: the model of `fetch_news.py`.

The loops that build lists by `append` are methods with loop invariants:

- `FetchFeodoIps` and `FetchThreatfoxDomains` are proved equal to a filter-then-map definition;
- `CollectArticles` (the nested loops of `fetch_news_items`) is proved equal to `Collected`.

The list comprehension, `html_list`, the index rewrite and `sorted` are functions.

Behaviour worth noting:

- The defang step replaces only dots. `@` is not changed.
- Nothing is deduplicated.
- The hash filter keeps every non-empty non-comment line, also when it is not 64 hex digits.
- The ThreatFox filter keeps any value that has a dot and does not start with `http`.
- The news script takes the first five entries of each feed, `entries[:5]`. RSS feeds list
  their newest entries first, so these are the latest five.
- The news list is sorted on the `published` string, not on a date. It is in date order only
  when every `published` value has a format that sorts by date. An RSS `pubDate` is an
  RFC 822 date (`Tue, 14 Oct 2025 ...`), so such entries sort by weekday name first. The
  `today` default is a `%Y-%m-%d` date, which starts with a digit, so an entry without a
  date comes after every entry whose date starts with a letter (`LettersBeforeDigits`).

## Model

| member | source | states |
|---|---|---|
| `FetchIocs.FetchFeodoIps` | fetch_iocs.py:6-16 | the result is, in input order, the defanged first comma-separated field (the text before the first comma) of exactly the lines that are neither `#` comments nor blank, and it is no longer than the input |
| `FetchIocs.FeodoIpsCount` | fetch_iocs.py:11-15 | the Feodo output has one entry per data line: its length is the number of lines minus the skipped (comment or blank) ones |
| `FetchIocs.FeodoIpsMembership` | fetch_iocs.py:11-15 | a value is in the Feodo output iff some data line yields it |
| `FetchIocs.FeodoIpOfLine` | fetch_iocs.py:14-15 | an output, refanged, is the part of its line before the first comma: a comma-free prefix followed by a comma or the line's end; every dot it shows is inside `[.]` |
| `Text.FirstField` | fetch_iocs.py:14 | `split(",")[0]` is a prefix of the line without a comma, followed in the line by a comma unless it is the whole line |
| `Text.RefangDefang` | fetch_iocs.py:15 | defanging is injective: refanging a defanged string gives back the original |
| `Text.DefangDotsBracketed` | fetch_iocs.py:15 | no bare dot survives defanging: each remaining `.` is the middle of `[.]` |
| `Text.DefangLength` | fetch_iocs.py:15 | defanging grows a string by two characters per dot |
| `FetchIocs.MalwareHashes` | fetch_iocs.py:19-23 | the result is a subsequence of the lines (input order), holds only non-empty non-comment lines, and keeps every such line as many times as it occurs |
| `FetchIocs.BlankLineTreatment` | fetch_iocs.py:12-23 | a non-empty whitespace-only line is kept by the hash filter and dropped by the Feodo filter |
| `FetchIocs.FirstFailure` | fetch_iocs.py:30-37 | the items before the returned index do not raise, and the item at it (if any) does |
| `FetchIocs.FetchThreatfoxDomains` | fetch_iocs.py:26-38 | the result is the defanged candidate values of the items before the first raising item, in order, or empty for an unparsable reply; each refangs to a value with a dot that does not start with `http` |
| `FetchIocs.DomainsOfSnoc` | fetch_iocs.py:32-35 | one more item adds its defanged value exactly when it has a dot and does not start with `http` |
| `FetchIocs.DomainsOfMembership` | fetch_iocs.py:32-35 | a domain is produced iff some item has a string `ioc_value` with a dot, not starting with `http`, defanging to it |
| `FetchIocs.ThreatfoxMembership` | fetch_iocs.py:30-37 | the same for the whole reply, restricted to the items before the first failure; a missing `ioc_value` never contributes |
| `FetchIocs.ThreatfoxWholeReply` | fetch_iocs.py:30-35 | when no item raises, every item is processed |
| `FetchIocs.HtmlList` | fetch_iocs.py:41-45 | the rendering is empty exactly when the item list is empty |
| `FetchIocs.HtmlListRoundTrip` | fetch_iocs.py:41-45 | any list of items without line breaks, the empty one included, is read back unchanged and in order from its rendering, by a reader that accepts only the `<h2>` heading for the same title, `<li>...</li>` lines and the closing `</ul>` |
| `FetchIocs.UpdatedIndex` | fetch_iocs.py:83-84 | the index is unchanged when the day's entry is present or there is no `<ul>`; the updated page holds the entry exactly when the old one did or had a `<ul>` |
| `FetchIocs.UpdatedIndexInserts` | fetch_iocs.py:78-84 | otherwise the first `<ul>` (none occurs before it) is followed by a line break, four spaces and the entry; nothing else changes; the page then holds the entry and is that much longer |
| `FetchIocs.UpdatedIndexIdempotent` | fetch_iocs.py:77-86 | updating twice for the same day equals updating once |
| `FetchIocs.IndexWrite` | fetch_iocs.py:80-86 | the index file is written exactly when it exists and lacks the entry, and then with the updated page |
| `FetchIocs.SecondRunWritesNothing` | fetch_iocs.py:80-86 | when the page has a `<ul>`, a second run on the same day writes nothing |
| `Text.ReplaceFirst` | fetch_iocs.py:84 | `replace(pat, repl, 1)` returns the text unchanged when `pat` does not occur; otherwise `repl` stands at the first occurrence of `pat`, the text before and after it is kept, and the length changes by `|repl| - |pat|` |
| `Text.Contains` | fetch_iocs.py:83 | `entry in content` holds exactly when the entry occurs at some index of the content |
| `Text.FindFirst` | fetch_iocs.py:84 | the search for the `<ul>` to replace yields the lowest index at which the pattern occurs, or none when it occurs nowhere |
| `FetchNews.Taken` | fetch_news.py:25 | `entries[:5]` is a prefix of the entries, of length five or the number of entries when there are fewer |
| `FetchNews.Articles` | fetch_news.py:25-31 | one record per taken entry, in entry order, each built from its entry |
| `FetchNews.CollectArticles` | fetch_news.py:21-31 | the nested loops produce exactly `Collected`: feed by feed, the first five entries of each |
| `FetchNews.CollectedPrefix` | fetch_news.py:22-31 | the articles of the first `m` feeds are a prefix of the collection: later feeds only append |
| `FetchNews.CollectedLast` | fetch_news.py:23-31 | the entries taken from the last feed follow the articles of the earlier feeds, in entry order |
| `FetchNews.CollectedIndex` | fetch_news.py:22-31 | entry `j` of feed `i` is the record at position `j` after the records of the earlier feeds |
| `FetchNews.CollectedAt` | fetch_news.py:26-30 | that record has the entry's title and link, its `published` or else `today`, and the feed's name as `source` |
| `FetchNews.TakenCountBound` | fetch_news.py:23-25 | at most five articles per feed are collected |
| `FetchNews.ArticlesFromSource` | fetch_news.py:30 | every record of a feed carries that feed's name as `source` |
| `FetchNews.CollectedSourceAbsent` | fetch_news.py:23-30 | no article names a source that is not in the feed table |
| `FetchNews.CollectedCap` | fetch_news.py:23-25 | with distinct source names (dict keys), at most five collected articles come from any one source |
| `FetchNews.FromSourcePermutation` | fetch_news.py:32 | reordering the articles keeps the number from each source |
| `FetchNews.SortPermutation` | fetch_news.py:32 | the sorted list is a permutation of the collected articles |
| `FetchNews.SortOrdered` | fetch_news.py:32 | the sorted list is ordered by non-increasing `published` (Python string order) |
| `FetchNews.SortStable` | fetch_news.py:32 | articles with equal `published` keep their collection order (source order, then entry order) |
| `FetchNews.LettersBeforeDigits` | fetch_news.py:29-32 | in the sorted list, every article whose `published` starts with a letter (an RFC 822 weekday) comes before every article whose `published` starts with a digit (the `%Y-%m-%d` default `today`) |
| `FetchNews.TiesDetermineOrder` | fetch_news.py:32 | two lists in descending `published` order with the same order among ties are equal |
| `FetchNews.StableSortUnique` | fetch_news.py:32 | the sort result is the only list in descending `published` order that keeps the input order among ties, so it is exactly what `sorted(..., reverse=True)` returns |
| `FetchNews.FetchNewsItems` | fetch_news.py:21-32 | the result is the collected articles as a permutation in descending `published` string order, stable among ties, at most five per feed in total and at most five per source for distinct source names |
| `FetchNews.FeedTableDistinct` | fetch_news.py:14-18 | the three names of the feed table are distinct |
| `FetchNews.FeedTableCap` | fetch_news.py:14-32 | for the script's own three feeds the page lists at most fifteen articles, at most five per source |
| `FetchIocs.IsFeodoDataLine` | fetch_iocs.py:12 | definition: a line that neither starts with `#` nor is blank; `FeodoIpsCount` and `BlankLineTreatment` state its effect |
| `Text.StartsWith` | fetch_iocs.py:12 | definition of `s.startswith(p)`: `p` is a prefix of `s`; used at fetch_iocs.py:12, 23 and 34 |
| `Text.IsSpace` | fetch_iocs.py:12 | definition of the characters `str.isspace` accepts, the ones `strip()` removes |
| `Text.IsBlank` | fetch_iocs.py:12 | definition of `not line.strip()`: every character is one of those Python's `str.isspace` accepts |
| `FetchIocs.FeodoIp` | fetch_iocs.py:14-15 | definition: the defanged first comma field of a line; its properties are in `FeodoIpOfLine` |
| `Text.Defang` | fetch_iocs.py:15 | definition of `replace(".", "[.]")`; `RefangDefang`, `DefangDotsBracketed` and `DefangLength` state its properties |
| `FetchIocs.IsHashLine` | fetch_iocs.py:23 | definition of the comprehension's test `line and not line.startswith("#")`; its effect is in `MalwareHashes` |
| `FetchIocs.Raises` | fetch_iocs.py:33-34 | definition of the items whose processing raises and ends the loop through the `except` clause: an item that is not a JSON object (`.get` fails) or one whose `ioc_value` is not a string (the `in` test fails); `FirstFailure` and `ThreatfoxDomains` rest on it |
| `FetchIocs.IocValue` | fetch_iocs.py:33 | definition: the string `ioc_value` of an item, `""` when the key is missing |
| `FetchIocs.IsDomainCandidate` | fetch_iocs.py:34 | definition: the value contains `.` and does not start with `http` |
| `FetchIocs.DomainsOf` | fetch_iocs.py:32-35 | definition: the defanged candidates among the items' values, in order; `DomainsOfSnoc` and `DomainsOfMembership` state its properties |
| `FetchIocs.ThreatfoxDomains` | fetch_iocs.py:29-38 | definition: `[]` for an unparsable reply, otherwise `DomainsOf` the items before the first failure; `FetchThreatfoxDomains` is proved equal to it and `ThreatfoxMembership` characterises it |
| `FetchIocs.Li` | fetch_iocs.py:44 | definition of the item f-string `<li>{i}</li>` |
| `FetchIocs.ListHeader` | fetch_iocs.py:45 | definition of the text `<h2>{title}</h2><ul>` in front of the items |
| `Text.Join` | fetch_iocs.py:44 | definition of `"\n".join`; `HtmlListRoundTrip` shows that the joined lines can be split apart again |
| `FetchIocs.ArchiveEntry` | fetch_iocs.py:78 | definition: the day's `<li>` link line, built from `today` as the f-string does |
| `FetchIocs.ListOpening` | fetch_iocs.py:84 | definition: `<ul>`, a line break, four spaces and the entry; `UpdatedIndexInserts` states where it goes |
| `FetchNews.ToArticle` | fetch_news.py:26-31 | definition: the record of an entry; `CollectedAt` spells out its fields |
| `FetchNews.Collected` | fetch_news.py:22-31 | the articles of all feeds in collection order, as many as the taken entries together (`TakenCount`) |
| `FetchNews.Insert` | fetch_news.py:32 | definition: puts an article before the first one whose `published` string is not greater (Python string order); `SortPermutation`, `SortOrdered` and `SortStable` rest on it |
| `FetchNews.SortByPublishedDesc` | fetch_news.py:32 | definition: stable insertion sort, descending by the `published` string; `SortPermutation`, `SortOrdered`, `SortStable` and `StableSortUnique` prove it equals Python's `sorted(..., reverse=True)` |
| `Text.LexLe` | fetch_news.py:32 | definition of Python's `<=` on strings: code-point lexicographic order with a proper prefix first; `LexLeTotal`, `LexLeTransitive` and `LexLeAntisymmetric` make it a total order |
| `Text.LexLeTotal` | fetch_news.py:32 | any two `published` strings are comparable |
| `Text.LexLeTransitive` | fetch_news.py:32 | string order is transitive |
| `Text.LexLeAntisymmetric` | fetch_news.py:32 | strings that are each `<=` the other are equal |

## Left out

- HTTP: `requests.get`, `requests.post` and `r.json()` are not modelled. A download enters as
  its lines, and the ThreatFox answer as a decoded `Reply`.
- Line splitting: `str.splitlines()` and its line-boundary rules are not modelled. The lines
  are given.
- JSON shapes: a reply that fails to decode or is not an object is `Unparsable`. A `data`
  value that is a string iterates over characters whose `.get` raises, so it is a sequence
  of `NonRecord` items.
- `IocField.NonString`: a non-string `ioc_value` is assumed to make the `in` test raise. That
  holds for null, numbers and booleans. A JSON array or object does not always raise.
- The printed ThreatFox error message is console output and is left out.
- RSS: `feedparser.parse` is a foreign library. Its entries are given as `Entry` records.
- `Entry`: an entry always has a title and a link. The `AttributeError` raised for an entry
  without one is not modelled.
- Clock: `datetime.now()` is left out. The date string `today` is a parameter, and its
  `%Y-%m-%d` formatting is not modelled.
- Files: directory creation, `os.path.exists`, reading and writing are not modelled.
  `IndexWrite` takes the existing index as an `Option` and returns what would be written.
- Page templates: the literal HTML and CSS of both pages (fetch_iocs.py:60-71,
  fetch_news.py:37-105) are presentation only. So are the news rendering loop and its
  `html.escape` calls (fetch_news.py:93-99), which are left out.
- The emails list: it is always empty (fetch_iocs.py:57), and `HtmlList` of an empty list is
  `""`.
