/**
 * The daily IOC report script: three feed parsers (Feodo Tracker IP block list,
 * MalwareBazaar SHA-256 list, ThreatFox recent IOCs), the HTML list helper and
 * the update of the archive index page.
 *
 * Every network response and file is an argument: a download is the sequence of
 * its lines (what `r.text.splitlines()` yields), the ThreatFox answer is the
 * decoded JSON reply, and the archive index is its text.
 */
module FetchIocs {
  import opened Wrappers
  import opened Seqs
  import opened Text

  // ---------------------------------------------------------------------------
  // Feodo Tracker: IP block list (CSV)
  // ---------------------------------------------------------------------------

  /** A line that is neither a `#` comment nor blank (`not line.strip()`). */
  predicate IsFeodoDataLine(line: string) {
    !StartsWith(line, "#") && !IsBlank(line)
  }

  /** The defanged first comma-separated field (the text before the first comma) of a data line. */
  function FeodoIp(line: string): string {
    Defang(FirstField(line, ','))
  }

  /**
   * `fetch_feodo_ips`: one defanged first field per data line, in line order.
   */
  method FetchFeodoIps(lines: seq<string>) returns (ips: seq<string>)
    ensures ips == Map(FeodoIp, Filter(IsFeodoDataLine, lines))
    ensures |ips| <= |lines|
  {
    ips := [];
    for i := 0 to |lines|
      invariant ips == Map(FeodoIp, Filter(IsFeodoDataLine, lines[..i]))
    {
      var line := lines[i];
      assert lines[..i + 1] == lines[..i] + [line];
      FilterSnoc(IsFeodoDataLine, lines[..i], line);
      MapConcat(FeodoIp, Filter(IsFeodoDataLine, lines[..i]), if IsFeodoDataLine(line) then [line] else []);
      if StartsWith(line, "#") || IsBlank(line) {
        continue;
      }
      var ip := FirstField(line, ',');
      ips := ips + [Defang(ip)];
    }
    assert lines[..|lines|] == lines;
  }

  /**
   * A line the Feodo parser skips (the test at the `continue`): the complement
   * of `IsFeodoDataLine`, named so that the count below can partition the lines.
   */
  predicate IsFeodoSkippedLine(line: string) {
    StartsWith(line, "#") || IsBlank(line)
  }

  /**
   * The Feodo output has exactly one entry per data line: it is as long as the
   * input minus the comment and blank lines.
   */
  lemma FeodoIpsCount(lines: seq<string>)
    ensures |Map(FeodoIp, Filter(IsFeodoDataLine, lines))|
         == |lines| - |Filter(IsFeodoSkippedLine, lines)|
  {
    FilterPartition(IsFeodoDataLine, IsFeodoSkippedLine, lines);
  }

  /** A value is in the Feodo output exactly when some data line yields it. */
  lemma FeodoIpsMembership(lines: seq<string>, ip: string)
    ensures ip in Map(FeodoIp, Filter(IsFeodoDataLine, lines)) <==>
      exists line :: line in lines && IsFeodoDataLine(line) && ip == FeodoIp(line)
  {
    MapMembership(FeodoIp, Filter(IsFeodoDataLine, lines), ip);
    forall line ensures line in Filter(IsFeodoDataLine, lines) <==> line in lines && IsFeodoDataLine(line) {
      FilterMembership(IsFeodoDataLine, lines, line);
    }
  }

  /**
   * What one data line yields: refanged, it is the part of the line before the
   * first comma (so it contains no comma, and the line continues with a comma
   * when it is shorter), and every dot it shows is inside a `[.]` token.
   */
  lemma FeodoIpOfLine(line: string)
    ensures Refang(FeodoIp(line)) <= line
    ensures ',' !in Refang(FeodoIp(line))
    ensures |Refang(FeodoIp(line))| < |line| ==> line[|Refang(FeodoIp(line))|] == ','
    ensures forall i :: 0 <= i < |FeodoIp(line)| && FeodoIp(line)[i] == '.' ==>
      0 < i < |FeodoIp(line)| - 1 && FeodoIp(line)[i - 1] == '[' && FeodoIp(line)[i + 1] == ']'
  {
    RefangDefang(FirstField(line, ','));
    DefangDotsBracketed(FirstField(line, ','));
  }

  // ---------------------------------------------------------------------------
  // MalwareBazaar: recent SHA-256 hashes (plain text)
  // ---------------------------------------------------------------------------

  /** A line kept by the hash filter: non-empty and not a `#` comment. */
  predicate IsHashLine(line: string) {
    line != "" && !StartsWith(line, "#")
  }

  /**
   * `fetch_malware_hashes`: the non-empty, non-comment lines, in order, each as
   * often as it occurs; every other line is dropped.
   */
  function MalwareHashes(lines: seq<string>): (r: seq<string>)
    ensures IsSubseq(r, lines)
    ensures forall i :: 0 <= i < |r| ==> r[i] != "" && !StartsWith(r[i], "#")
    ensures forall x :: multiset(r)[x] == if IsHashLine(x) then multiset(lines)[x] else 0
  {
    FilterIsSubseq(IsHashLine, lines);
    FilterMultisetAll(IsHashLine, lines);
    Filter(IsHashLine, lines)
  }

  /**
   * A non-empty whitespace-only line is kept by the hash filter but dropped by
   * the Feodo filter.
   */
  lemma BlankLineTreatment(line: string)
    requires line != "" && IsBlank(line)
    ensures MalwareHashes([line]) == [line]
    ensures Filter(IsFeodoDataLine, [line]) == []
  {
    assert IsSpace(line[0]);
    assert !StartsWith(line, "#");
  }

  // ---------------------------------------------------------------------------
  // ThreatFox: recent IOCs (JSON API)
  // ---------------------------------------------------------------------------

  /** The `ioc_value` field of one result object. */
  datatype IocField =
    | Missing            // no `ioc_value` key: `.get` yields the default ""
    | Str(value: string) // a JSON string
    | NonString          // a JSON null, number or boolean: the `in` test raises

  /** One element of the reply's `data` array. */
  datatype Item =
    | Record(ioc: IocField) // a JSON object
    | NonRecord             // anything else: `item.get` raises

  /** The decoded ThreatFox reply. */
  datatype Reply =
    | Unparsable            // `r.json()` raised, or did not yield an object
    | Parsed(data: seq<Item>) // the `data` array (an absent key gives [])

  /** Processing this item raises, which ends the loop through the `except` clause. */
  predicate Raises(item: Item) {
    item.NonRecord? || item.ioc.NonString?
  }

  /** `item.get("ioc_value", "")` for an item that does not raise. */
  function IocValue(item: Item): string {
    match item
    case Record(Str(v)) => v
    case _ => ""
  }

  /** A value kept as a domain: it has a dot and is not a URL. */
  predicate IsDomainCandidate(v: string) {
    '.' in v && !StartsWith(v, "http")
  }

  /** The number of items processed before the first one that raises. */
  function FirstFailure(items: seq<Item>): (k: nat)
    ensures k <= |items|
    ensures forall j :: 0 <= j < k ==> !Raises(items[j])
    ensures k < |items| ==> Raises(items[k])
    decreases |items|
  {
    if items == [] || Raises(items[0]) then 0 else 1 + FirstFailure(items[1..])
  }

  /** The defanged candidates among the values of `items`, in order. */
  function DomainsOf(items: seq<Item>): seq<string> {
    Map(Defang, Filter(IsDomainCandidate, Map(IocValue, items)))
  }

  /**
   * The domains `fetch_threatfox_domains` returns: those of the items before the
   * first failure (the list built so far is returned after the `except` clause);
   * nothing for an unparsable reply.
   */
  function ThreatfoxDomains(reply: Reply): seq<string> {
    match reply
    case Unparsable => []
    case Parsed(items) => DomainsOf(items[..FirstFailure(items)])
  }

  /** One more item adds its defanged value when that value is a candidate, and nothing otherwise. */
  lemma DomainsOfSnoc(items: seq<Item>, item: Item)
    ensures DomainsOf(items + [item])
         == DomainsOf(items) + (if IsDomainCandidate(IocValue(item)) then [Defang(IocValue(item))] else [])
  {
    var v := IocValue(item);
    MapConcat(IocValue, items, [item]);
    assert Map(IocValue, [item]) == [v];
    var values := Map(IocValue, items);
    FilterSnoc(IsDomainCandidate, values, v);
    var extra := if IsDomainCandidate(v) then [v] else [];
    MapConcat(Defang, Filter(IsDomainCandidate, values), extra);
    assert Map(Defang, extra) == if IsDomainCandidate(v) then [Defang(v)] else [];
  }

  /** `fetch_threatfox_domains`, with the reply passed in. */
  method FetchThreatfoxDomains(reply: Reply) returns (domains: seq<string>)
    ensures domains == ThreatfoxDomains(reply)
    ensures forall i :: 0 <= i < |domains| ==> IsDomainCandidate(Refang(domains[i]))
  {
    domains := [];
    if reply.Parsed? {
      var items := reply.data;
      var i := 0;
      while i < |items|
        invariant i <= FirstFailure(items)
        invariant domains == DomainsOf(items[..i])
        invariant forall k :: 0 <= k < |domains| ==> IsDomainCandidate(Refang(domains[k]))
      {
        var item := items[i];
        if Raises(item) {
          break;
        }
        assert items[..i + 1] == items[..i] + [item];
        DomainsOfSnoc(items[..i], item);
        var domain := IocValue(item);
        if '.' in domain && !StartsWith(domain, "http") {
          RefangDefang(domain);
          domains := domains + [Defang(domain)];
        }
        i := i + 1;
      }
    }
  }

  /** `item` has a string `ioc_value` that is a candidate and defangs to `d`. */
  predicate Yields(item: Item, d: string) {
    item.Record? && item.ioc.Str? && IsDomainCandidate(item.ioc.value) && d == Defang(item.ioc.value)
  }

  /** A domain comes out of `items` exactly when one of them yields it. */
  lemma {:induction false} DomainsOfMembership(items: seq<Item>, d: string)
    ensures d in DomainsOf(items) <==> exists j :: 0 <= j < |items| && Yields(items[j], d)
    decreases |items|
  {
    if items != [] {
      var n := |items| - 1;
      var init := items[..n];
      assert items == init + [items[n]];
      DomainsOfSnoc(init, items[n]);
      DomainsOfMembership(init, d);
      var v := IocValue(items[n]);
      assert Yields(items[n], d) <==> IsDomainCandidate(v) && d == Defang(v);
      if d in DomainsOf(items) {
        if d in DomainsOf(init) {
          var j :| 0 <= j < n && Yields(init[j], d);
          assert items[j] == init[j];
        } else {
          assert Yields(items[n], d);
        }
      }
      if exists j :: 0 <= j < |items| && Yields(items[j], d) {
        var j :| 0 <= j < |items| && Yields(items[j], d);
        if j < n {
          assert Yields(init[j], d);
        }
      }
    }
  }

  /**
   * A domain is reported exactly when an item before the first failure yields
   * it; an item without `ioc_value` never contributes.
   */
  lemma ThreatfoxMembership(items: seq<Item>, d: string)
    ensures d in ThreatfoxDomains(Parsed(items)) <==>
      exists j :: 0 <= j < FirstFailure(items) && Yields(items[j], d)
  {
    var processed := items[..FirstFailure(items)];
    DomainsOfMembership(processed, d);
    if exists j :: 0 <= j < |processed| && Yields(processed[j], d) {
      var j :| 0 <= j < |processed| && Yields(processed[j], d);
      assert processed[j] == items[j];
    }
    if exists j :: 0 <= j < FirstFailure(items) && Yields(items[j], d) {
      var j :| 0 <= j < FirstFailure(items) && Yields(items[j], d);
      assert processed[j] == items[j];
    }
  }

  /** A reply in which no item raises is processed to its end. */
  lemma ThreatfoxWholeReply(items: seq<Item>)
    requires forall j :: 0 <= j < |items| ==> !Raises(items[j])
    ensures ThreatfoxDomains(Parsed(items)) == DomainsOf(items)
  {
    assert FirstFailure(items) == |items|;
    assert items[..|items|] == items;
  }

  // ---------------------------------------------------------------------------
  // HTML list helper
  // ---------------------------------------------------------------------------

  /** One list item. */
  function Li(item: string): string {
    "<li>" + item + "</li>"
  }

  /** The text in front of the list items. */
  function ListHeader(title: string): string {
    "<h2>" + title + "</h2><ul>"
  }

  /**
   * `html_list`: nothing for an empty list; otherwise a heading and an unordered
   * list with one `<li>` line per item.
   */
  function HtmlList(title: string, items: seq<string>): (r: string)
    ensures r == "" <==> items == []
  {
    if items == [] then ""
    else ListHeader(title) + Join("\n", Map(Li, items)) + "</ul>"
  }

  /** A line of the form `<li>...</li>`. */
  predicate IsLiLine(line: string) {
    |line| >= 9 && line[..4] == "<li>" && line[|line| - 5..] == "</li>"
  }

  /** The text inside an `<li>...</li>` line. */
  function Unwrap(line: string): string
    requires IsLiLine(line)
  {
    line[4..|line| - 5]
  }

  /**
   * Reads the items back out of a rendered list, the inverse of `HtmlList`:
   * `[]` for the empty rendering; otherwise the page must be the heading for
   * `title`, lines of the form `<li>...</li>` and the closing `</ul>`, and
   * anything else is `None`.
   */
  function ListItems(title: string, page: string): Option<seq<string>> {
    var h := ListHeader(title);
    if page == "" then Some([])
    else if |page| < |h| + 5 || page[..|h|] != h || page[|page| - 5..] != "</ul>" then None
    else
      var lines := Split(page[|h|..|page| - 5], '\n');
      if forall i :: 0 <= i < |lines| ==> IsLiLine(lines[i])
      then Some(seq(|lines|, i requires 0 <= i < |lines| => Unwrap(lines[i])))
      else None
  }

  /**
   * Rendering loses nothing: a list of items without line breaks is recovered
   * from its rendering, in order, and only under the same title.
   */
  lemma HtmlListRoundTrip(title: string, items: seq<string>)
    requires forall i :: 0 <= i < |items| ==> '\n' !in items[i]
    ensures ListItems(title, HtmlList(title, items)) == Some(items)
  {
    if items != [] {
      var lis := Map(Li, items);
      var body := Join("\n", lis);
      var h := ListHeader(title);
      var page := h + body + "</ul>";
      assert page[..|h|] == h;
      assert page[|page| - 5..] == "</ul>";
      assert page[|h|..|page| - 5] == body;
      forall i | 0 <= i < |lis| ensures '\n' !in lis[i] {
        assert lis[i] == "<li>" + items[i] + "</li>";
      }
      SplitJoin(lis, '\n');
      forall i | 0 <= i < |items| ensures IsLiLine(lis[i]) && Unwrap(lis[i]) == items[i] {
        assert lis[i] == "<li>" + items[i] + "</li>";
        assert lis[i][..4] == "<li>";
        assert lis[i][|lis[i]| - 5..] == "</li>";
        assert lis[i][4..|lis[i]| - 5] == items[i];
      }
      assert HtmlList(title, items) == page;
      var lines := Split(page[|h|..|page| - 5], '\n');
      assert lines == lis;
      assert seq(|lines|, i requires 0 <= i < |lines| => Unwrap(lines[i])) == items;
    }
  }

  // ---------------------------------------------------------------------------
  // Archive index
  // ---------------------------------------------------------------------------

  /** The archive line for the day `today` (formatted `%Y-%m-%d`). */
  function ArchiveEntry(today: string): string {
    "<li><a href=\"/daily-ioc/ioc-" + today + "/\">" + today + "</a></li>"
  }

  /** What goes in front of the new entry: a line break and four spaces. */
  const EntryIndent: string := "\n    "

  /** The text put in place of the first `<ul>`: `<ul>`, then the indented entry. */
  function ListOpening(today: string): string {
    "<ul>" + (EntryIndent + ArchiveEntry(today))
  }

  /**
   * The archive index after the update: unchanged when the day's entry is
   * already there or the page has no `<ul>`; otherwise the entry is put after
   * the first `<ul>`, so that the page then holds it.
   */
  function UpdatedIndex(content: string, today: string): (r: string)
    ensures Contains(content, ArchiveEntry(today)) ==> r == content
    ensures FindFirst(content, "<ul>").None? ==> r == content
    ensures Contains(r, ArchiveEntry(today))
        <==> Contains(content, ArchiveEntry(today)) || FindFirst(content, "<ul>").Some?
  {
    if Contains(content, ArchiveEntry(today)) then content
    else
      var r := ReplaceFirst(content, "<ul>", ListOpening(today));
      if FindFirst(content, "<ul>").Some? then
        var i := FindFirst(content, "<ul>").value;
        ReplaceFirstAppends(content, "<ul>", EntryIndent + ArchiveEntry(today), i);
        ContainsAfter(content[..i + 4], EntryIndent, ArchiveEntry(today), content[i + 4..]);
        r
      else r
  }

  /**
   * Otherwise the entry goes after the FIRST `<ul>` only (the text before it has
   * none), with a line break and four spaces in front, nothing else changes, and
   * the page then holds the entry.
   */
  lemma UpdatedIndexInserts(content: string, today: string)
    requires !Contains(content, ArchiveEntry(today)) && FindFirst(content, "<ul>").Some?
    ensures var i := FindFirst(content, "<ul>").value;
      && i + 4 <= |content| && content[i..i + 4] == "<ul>"
      && (forall j: nat :: j < i ==> !OccursAt(content, "<ul>", j))
      && UpdatedIndex(content, today)
         == content[..i + 4] + (EntryIndent + ArchiveEntry(today)) + content[i + 4..]
    ensures Contains(UpdatedIndex(content, today), ArchiveEntry(today))
    ensures |UpdatedIndex(content, today)| == |content| + |EntryIndent| + |ArchiveEntry(today)|
  {
    var i := FindFirst(content, "<ul>").value;
    ReplaceFirstAppends(content, "<ul>", EntryIndent + ArchiveEntry(today), i);
    ContainsAfter(content[..i + 4], EntryIndent, ArchiveEntry(today), content[i + 4..]);
  }

  /** Updating the archive index twice for the same day is the same as updating it once. */
  lemma UpdatedIndexIdempotent(content: string, today: string)
    ensures UpdatedIndex(UpdatedIndex(content, today), today) == UpdatedIndex(content, today)
  {
    if !Contains(content, ArchiveEntry(today)) && FindFirst(content, "<ul>").Some? {
      UpdatedIndexInserts(content, today);
    }
  }

  /**
   * What the script writes back to the index file: nothing when the file does
   * not exist or already holds the entry, the updated page otherwise (even when
   * it has no `<ul>` and so is unchanged).
   */
  function IndexWrite(existing: Option<string>, today: string): (w: Option<string>)
    ensures w.Some? <==> existing.Some? && !Contains(existing.value, ArchiveEntry(today))
    ensures w.Some? ==> existing.Some? && w.value == UpdatedIndex(existing.value, today)
  {
    match existing
    case None => None
    case Some(content) =>
      if Contains(content, ArchiveEntry(today)) then None
      else Some(ReplaceFirst(content, "<ul>", ListOpening(today)))
  }

  /** A second run on the same day writes nothing once the first has inserted the entry. */
  lemma SecondRunWritesNothing(content: string, today: string)
    requires FindFirst(content, "<ul>").Some?
    ensures IndexWrite(Some(UpdatedIndex(content, today)), today) == None
  {
    if !Contains(content, ArchiveEntry(today)) {
      UpdatedIndexInserts(content, today);
    }
  }
}
