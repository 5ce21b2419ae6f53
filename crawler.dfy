/**
 * main.py of the njcourts.gov jury-page scraper: the two-level crawl from the
 * seed page. Each link of the seed page is scraped (top level), then each
 * link of a scraped top-level page (second level); links of second-level
 * pages are only drawn in the graph, never scraped. A URL that is already a
 * key of `pages` is skipped and counted; a URL whose scrape gives `None` is
 * dropped. `pages` is only ever inserted into.
 *
 * `scrape_page` is an oracle `scrape` (a deterministic function of the URL),
 * and the networkx graph, the plot, the log lines and the JSON dump are not
 * modelled. Besides the script's own state (`pages` and the two counters)
 * the specification keeps a log of what happened to every URL the loops met,
 * in order to state which URLs were scraped.
 */
module Crawler {
  import opened Wrappers
  import opened Strings
  import opened Utils

  /** The seed page (main.py:11). */
  const MainUrl: string := "https://www.njcourts.gov/jurors/reporting"

  /** An entry of `pages`: the scraped dict with its `parent_page` added. */
  datatype Entry = Entry(page: Page, parentPage: string)

  /**
   * What became of one URL the loops met, and where it was met: `None` for a
   * link of the seed page, `Some(p)` for a link of the top-level page `p`.
   */
  datatype Event =
    | Skipped(url: string, from: Option<string>)   // already a key of `pages`
    | Failed(url: string, from: Option<string>)    // scraped, `scrape_page` gave `None`
    | Inserted(url: string, from: Option<string>)  // scraped and stored

  /** The script's state, `pages` and the two counters, with the log of events. */
  datatype State = State(pages: map<string, Entry>, processed: nat, skipped: nat, log: seq<Event>)

  const Start: State := State(map[], 0, 0, [])

  /** The `parent_page` an entry stored from a URL met at `from` gets. */
  function ParentName(from: Option<string>): (parent: string) {
    match from
    case None => MainUrl
    case Some(p) => p
  }

  // ---------------------------------------------------------------------------
  // The loops as functions

  /** One pass of the inner loop (main.py:55-78) for `childUrl`, a link of the top-level page `url`. */
  function ChildStep(s: State, childUrl: string, url: string, scrape: string -> Option<Page>): (t: State)
    ensures Extends(s.pages, t.pages) && t.processed == s.processed
    ensures |t.log| == |s.log| + 1 && s.log <= t.log
    ensures t.log[|s.log|].url == childUrl && t.log[|s.log|].from == Some(url)
    ensures t.log[|s.log|].Skipped? <==> childUrl in s.pages
    ensures t.skipped == if childUrl in s.pages then s.skipped + 1 else s.skipped
  {
    if childUrl in s.pages then
      s.(skipped := s.skipped + 1, log := s.log + [Skipped(childUrl, Some(url))])
    else
      match scrape(childUrl)
      case None => s.(log := s.log + [Failed(childUrl, Some(url))])
      case Some(childPage) =>
        s.(pages := s.pages[childUrl := Entry(childPage, url)], log := s.log + [Inserted(childUrl, Some(url))])
  }

  /** The inner loop over the first `|children|` links. */
  function ChildLoop(s: State, children: seq<string>, url: string, scrape: string -> Option<Page>): (t: State)
    ensures Extends(s.pages, t.pages) && t.processed == s.processed
    ensures |t.log| == |s.log| + |children| && s.log <= t.log
    decreases |children|
  {
    if |children| == 0 then s
    else ChildStep(ChildLoop(s, children[..|children| - 1], url, scrape), children[|children| - 1], url, scrape)
  }

  /** One pass of the outer loop (main.py:34-83) for the seed link `url`. */
  function TopStep(s: State, url: string, scrape: string -> Option<Page>): (t: State)
    ensures Extends(s.pages, t.pages)
    ensures |t.log| > |s.log| && s.log <= t.log
    ensures t.log[|s.log|].url == url && t.log[|s.log|].from.None?
    ensures t.log[|s.log|].Skipped? <==> url in s.pages
    ensures url !in s.pages && scrape(url).None? ==> t.pages == s.pages
    ensures t.processed == if t.log[|s.log|].Inserted? then s.processed + 1 else s.processed
    ensures url !in s.pages && scrape(url).Some? ==> url in t.pages && t.pages[url] == Entry(scrape(url).value, MainUrl)
  {
    if url in s.pages then
      s.(skipped := s.skipped + 1, log := s.log + [Skipped(url, None)])
    else
      match scrape(url)
      case None => s.(log := s.log + [Failed(url, None)])
      case Some(page) =>
        var stored := s.(pages := s.pages[url := Entry(page, MainUrl)], log := s.log + [Inserted(url, None)]);
        var after := ChildLoop(stored, page.childPages, url, scrape);
        after.(processed := after.processed + 1)
  }

  /** The outer loop over the first `|urls|` seed links. */
  function TopLoop(s: State, urls: seq<string>, scrape: string -> Option<Page>): (t: State)
    ensures Extends(s.pages, t.pages) && s.log <= t.log
    ensures t.processed <= s.processed + |urls|
    decreases |urls|
  {
    if |urls| == 0 then s
    else TopStep(TopLoop(s, urls[..|urls| - 1], scrape), urls[|urls| - 1], scrape)
  }

  // ---------------------------------------------------------------------------
  // The script

  /**
   * The nested loop of main.py:34-83 over the seed links `pageUrls`: it ends
   * in the state the loop functions describe.
   */
  method CrawlLinks(pageUrls: seq<string>, scrape: string -> Option<Page>)
    returns (pages: map<string, Entry>, pageProcessCounter: nat, skippedPageCounter: nat)
    ensures var s := TopLoop(Start, pageUrls, scrape);
      pages == s.pages && pageProcessCounter == s.processed && skippedPageCounter == s.skipped
    ensures forall k :: k in pages ==> EntryOk(pages, k, pageUrls, scrape)
    ensures forall u :: u in pageUrls && scrape(u).Some? ==> u in pages
    ensures pageProcessCounter <= |pageUrls|
  {
    pages, pageProcessCounter, skippedPageCounter := map[], 0, 0;
    ghost var log: seq<Event> := [];
    for i := 0 to |pageUrls|
      invariant State(pages, pageProcessCounter, skippedPageCounter, log) == TopLoop(Start, pageUrls[..i], scrape)
    {
      assert pageUrls[..i + 1][..i] == pageUrls[..i];
      var url := pageUrls[i];
      if url in pages {
        skippedPageCounter := skippedPageCounter + 1;
        log := log + [Skipped(url, None)];
        continue;
      }
      var page := scrape(url);
      if page.None? {
        log := log + [Failed(url, None)];
        continue;
      }
      pages := pages[url := Entry(page.value, MainUrl)];
      log := log + [Inserted(url, None)];
      ghost var stored := State(pages, pageProcessCounter, skippedPageCounter, log);
      var children := page.value.childPages;
      for j := 0 to |children|
        invariant State(pages, pageProcessCounter, skippedPageCounter, log) == ChildLoop(stored, children[..j], url, scrape)
      {
        assert children[..j + 1][..j] == children[..j];
        var childUrl := children[j];
        if childUrl in pages {
          skippedPageCounter := skippedPageCounter + 1;
          log := log + [Skipped(childUrl, Some(url))];
          continue;
        }
        var childPage := scrape(childUrl);
        if childPage.None? {
          log := log + [Failed(childUrl, Some(url))];
          continue;
        }
        pages := pages[childUrl := Entry(childPage.value, url)];
        log := log + [Inserted(childUrl, Some(url))];
      }
      assert children[..|children|] == children;
      pageProcessCounter := pageProcessCounter + 1;
    }
    assert pageUrls[..|pageUrls|] == pageUrls;
    CrawlFacts(pageUrls, scrape);
    TopLoopCovers(pageUrls, scrape);
  }

  // ---------------------------------------------------------------------------
  // What holds of every state the loops go through

  /** `pages` only grows: every entry of `old` is still in `new`, unchanged. */
  ghost predicate Extends(before: map<string, Entry>, after: map<string, Entry>) {
    forall k :: k in before ==> k in after && after[k] == before[k]
  }

  /** `p` was stored as a link of the seed page. */
  predicate TopLevel(pages: map<string, Entry>, p: string, pageUrls: seq<string>) {
    p in pages && pages[p].parentPage == MainUrl && p in pageUrls
  }

  /**
   * `u` is a URL the loops may meet at `from`: a seed link, or a link of a
   * page stored at the top level.
   */
  predicate Reached(pages: map<string, Entry>, u: string, from: Option<string>, pageUrls: seq<string>) {
    match from
    case None => u in pageUrls
    case Some(p) => TopLevel(pages, p, pageUrls) && u in pages[p].page.childPages
  }

  /**
   * The entry of `k` is what scraping `k` gave, and its `parent_page` is
   * either the seed page (and `k` a seed link) or a top-level page that
   * links to `k`.
   */
  predicate EntryOk(pages: map<string, Entry>, k: string, pageUrls: seq<string>, scrape: string -> Option<Page>)
    requires k in pages
  {
    && scrape(k) == Some(pages[k].page)
    && var parent := pages[k].parentPage;
      (parent == MainUrl && k in pageUrls) || (TopLevel(pages, parent, pageUrls) && k in pages[parent].page.childPages)
  }

  /** An event agrees with `pages`. */
  predicate EventOk(pages: map<string, Entry>, e: Event, pageUrls: seq<string>, scrape: string -> Option<Page>) {
    && Reached(pages, e.url, e.from, pageUrls)
    && match e
       case Skipped(u, _) => u in pages
       case Failed(u, _) => u !in pages && scrape(u).None?
       case Inserted(u, from) => u in pages && pages[u].parentPage == ParentName(from)
  }

  /** How often the log records that `u` was stored. */
  function InsertCount(log: seq<Event>, u: string): (n: nat)
    ensures n <= |log|
  {
    if |log| == 0 then 0
    else InsertCount(log[..|log| - 1], u) + if log[|log| - 1] == Inserted(u, log[|log| - 1].from) then 1 else 0
  }

  /** The invariant of both loops. */
  ghost predicate Good(s: State, pageUrls: seq<string>, scrape: string -> Option<Page>) {
    && (forall k :: k in s.pages ==> EntryOk(s.pages, k, pageUrls, scrape))
    && (forall i :: 0 <= i < |s.log| ==> EventOk(s.pages, s.log[i], pageUrls, scrape))
    && (forall k :: k in s.pages ==> InsertCount(s.log, k) == 1)
  }

  /** Growing `pages` keeps every fact about the old entries. */
  lemma ExtendsKeeps(before: map<string, Entry>, after: map<string, Entry>, pageUrls: seq<string>, scrape: string -> Option<Page>)
    requires Extends(before, after)
    ensures forall p :: TopLevel(before, p, pageUrls) ==> TopLevel(after, p, pageUrls)
    ensures forall u, from :: Reached(before, u, from, pageUrls) ==> Reached(after, u, from, pageUrls)
    ensures forall k :: k in before && EntryOk(before, k, pageUrls, scrape) ==> EntryOk(after, k, pageUrls, scrape)
  {
  }

  /** A URL with no `Inserted` event in the log has count 0. */
  lemma {:induction false} InsertCountZero(log: seq<Event>, u: string)
    requires forall i :: 0 <= i < |log| ==> !(log[i].Inserted? && log[i].url == u)
    ensures InsertCount(log, u) == 0
  {
    if |log| > 0 {
      InsertCountZero(log[..|log| - 1], u);
    }
  }
  /** A URL stored at two positions of the log is counted at least twice. */
  lemma {:induction false} InsertCountTwice(log: seq<Event>, u: string, i: nat, j: nat)
    requires i < j < |log|
    requires log[i].Inserted? && log[i].url == u && log[j].Inserted? && log[j].url == u
    ensures InsertCount(log, u) >= 2
    decreases |log|
  {
    var init := log[..|log| - 1];
    if j == |log| - 1 {
      assert init[i] == log[i];
      InsertCountOnce(init, u, i);
    } else {
      assert init[i] == log[i] && init[j] == log[j];
      InsertCountTwice(init, u, i, j);
    }
  }

  /** A URL stored at some position of the log is counted. */
  lemma {:induction false} InsertCountOnce(log: seq<Event>, u: string, i: nat)
    requires i < |log| && log[i].Inserted? && log[i].url == u
    ensures InsertCount(log, u) >= 1
    decreases |log|
  {
    if i < |log| - 1 {
      var init := log[..|log| - 1];
      assert init[i] == log[i];
      InsertCountOnce(init, u, i);
    }
  }


  /** Storing `u`, met at `from`, when it is not a key and scraping it gave `page`. */
  lemma InsertKeepsGood(s: State, u: string, from: Option<string>, page: Page, pageUrls: seq<string>, scrape: string -> Option<Page>)
    requires Good(s, pageUrls, scrape)
    requires u !in s.pages && scrape(u) == Some(page) && Reached(s.pages, u, from, pageUrls)
    requires from.None? ==> u in pageUrls
    ensures var t := s.(pages := s.pages[u := Entry(page, ParentName(from))], log := s.log + [Inserted(u, from)]);
      Good(t, pageUrls, scrape) && Extends(s.pages, t.pages)
  {
    var pages := s.pages[u := Entry(page, ParentName(from))];
    var log := s.log + [Inserted(u, from)];
    var t := s.(pages := pages, log := log);
    assert Extends(s.pages, pages);
    ExtendsKeeps(s.pages, pages, pageUrls, scrape);
    forall i | 0 <= i < |s.log|
      ensures !(s.log[i].Inserted? && s.log[i].url == u)
    {
      assert EventOk(s.pages, s.log[i], pageUrls, scrape);
    }
    InsertCountZero(s.log, u);
    assert log[..|log| - 1] == s.log;
    forall k | k in pages
      ensures EntryOk(pages, k, pageUrls, scrape) && InsertCount(log, k) == 1
    {
      if k != u {
        assert EntryOk(s.pages, k, pageUrls, scrape);
      }
    }
    forall i | 0 <= i < |log|
      ensures EventOk(pages, log[i], pageUrls, scrape)
    {
      if i < |s.log| {
        assert EventOk(s.pages, s.log[i], pageUrls, scrape);
      }
    }
  }

  /** Recording a skip or a failure changes nothing in `pages`. */
  lemma RecordKeepsGood(s: State, e: Event, pageUrls: seq<string>, scrape: string -> Option<Page>)
    requires Good(s, pageUrls, scrape) && !e.Inserted? && EventOk(s.pages, e, pageUrls, scrape)
    ensures Good(s.(log := s.log + [e]), pageUrls, scrape)
    ensures Good(s.(log := s.log + [e], skipped := s.skipped + 1), pageUrls, scrape)
  {
    var log := s.log + [e];
    assert log[..|log| - 1] == s.log;
    forall k | k in s.pages
      ensures InsertCount(log, k) == 1
    {
    }
  }

  /** One pass of the inner loop keeps the invariant and only grows `pages`. */
  lemma ChildStepGood(s: State, childUrl: string, url: string, pageUrls: seq<string>, scrape: string -> Option<Page>)
    requires Good(s, pageUrls, scrape)
    requires TopLevel(s.pages, url, pageUrls) && childUrl in s.pages[url].page.childPages
    ensures var t := ChildStep(s, childUrl, url, scrape);
      Good(t, pageUrls, scrape) && Extends(s.pages, t.pages)
  {
    if childUrl in s.pages {
      RecordKeepsGood(s, Skipped(childUrl, Some(url)), pageUrls, scrape);
    } else if scrape(childUrl).None? {
      RecordKeepsGood(s, Failed(childUrl, Some(url)), pageUrls, scrape);
    } else {
      InsertKeepsGood(s, childUrl, Some(url), scrape(childUrl).value, pageUrls, scrape);
    }
  }

  /** The inner loop keeps the invariant and only grows `pages`. */
  lemma {:induction false} ChildLoopGood(s: State, children: seq<string>, url: string, pageUrls: seq<string>, scrape: string -> Option<Page>)
    requires Good(s, pageUrls, scrape) && TopLevel(s.pages, url, pageUrls)
    requires forall c :: c in children ==> c in s.pages[url].page.childPages
    ensures var t := ChildLoop(s, children, url, scrape);
      Good(t, pageUrls, scrape) && Extends(s.pages, t.pages)
    decreases |children|
  {
    if |children| > 0 {
      var init := children[..|children| - 1];
      assert forall c :: c in init ==> c in children;
      ChildLoopGood(s, init, url, pageUrls, scrape);
      var mid := ChildLoop(s, init, url, scrape);
      ChildStepGood(mid, children[|children| - 1], url, pageUrls, scrape);
    }
  }

  /** One pass of the outer loop keeps the invariant and only grows `pages`. */
  lemma TopStepGood(s: State, url: string, pageUrls: seq<string>, scrape: string -> Option<Page>)
    requires Good(s, pageUrls, scrape) && url in pageUrls
    ensures var t := TopStep(s, url, scrape);
      Good(t, pageUrls, scrape) && Extends(s.pages, t.pages)
  {
    if url in s.pages {
      RecordKeepsGood(s, Skipped(url, None), pageUrls, scrape);
    } else if scrape(url).None? {
      RecordKeepsGood(s, Failed(url, None), pageUrls, scrape);
    } else {
      var page := scrape(url).value;
      InsertKeepsGood(s, url, None, page, pageUrls, scrape);
      var stored := s.(pages := s.pages[url := Entry(page, MainUrl)], log := s.log + [Inserted(url, None)]);
      ChildLoopGood(stored, page.childPages, url, pageUrls, scrape);
    }
  }

  /** The outer loop over seed links keeps the invariant. */
  lemma {:induction false} TopLoopGood(urls: seq<string>, pageUrls: seq<string>, scrape: string -> Option<Page>)
    requires forall u :: u in urls ==> u in pageUrls
    ensures Good(TopLoop(Start, urls, scrape), pageUrls, scrape)
    decreases |urls|
  {
    if |urls| > 0 {
      var init := urls[..|urls| - 1];
      assert forall u :: u in init ==> u in urls;
      TopLoopGood(init, pageUrls, scrape);
      TopStepGood(TopLoop(Start, init, scrape), urls[|urls| - 1], pageUrls, scrape);
    }
  }

  // ---------------------------------------------------------------------------
  // Counters

  /** Number of events that are skips. */
  function CountSkipped(log: seq<Event>): (n: nat)
    ensures n <= |log|
  {
    if |log| == 0 then 0 else CountSkipped(log[..|log| - 1]) + if log[|log| - 1].Skipped? then 1 else 0
  }

  /** Number of events about seed links. */
  function CountTop(log: seq<Event>): (n: nat)
    ensures n <= |log|
  {
    if |log| == 0 then 0 else CountTop(log[..|log| - 1]) + if log[|log| - 1].from.None? then 1 else 0
  }

  /** Number of seed links that were stored. */
  function CountTopInserted(log: seq<Event>): (n: nat)
    ensures n <= CountTop(log)
  {
    if |log| == 0 then 0
    else CountTopInserted(log[..|log| - 1]) + if log[|log| - 1].Inserted? && log[|log| - 1].from.None? then 1 else 0
  }

  /**
   * Number of links listed by the seed links that were stored: the links the
   * inner loop walks through.
   */
  function CountLinks(log: seq<Event>, scrape: string -> Option<Page>): (n: nat)
    ensures CountTopInserted(log) == 0 ==> n == 0
  {
    if |log| == 0 then 0
    else
      var e := log[|log| - 1];
      CountLinks(log[..|log| - 1], scrape) + if e.Inserted? && e.from.None? && scrape(e.url).Some? then |scrape(e.url).value.childPages| else 0
  }

  /** Appending one event adds the links of a stored seed page and nothing else. */
  lemma LinksAppend(log: seq<Event>, e: Event, scrape: string -> Option<Page>)
    ensures CountLinks(log + [e], scrape) == CountLinks(log, scrape) + if e.Inserted? && e.from.None? && scrape(e.url).Some? then |scrape(e.url).value.childPages| else 0
  {
    assert (log + [e])[..|log|] == log;
  }

  /** The counters as the log explains them. */
  ghost predicate Counted(s: State) {
    s.skipped == CountSkipped(s.log) && s.processed == CountTopInserted(s.log)
  }

  /** Appending one event changes each count by what that event is. */
  lemma CountsAppend(log: seq<Event>, e: Event)
    ensures CountSkipped(log + [e]) == CountSkipped(log) + if e.Skipped? then 1 else 0
    ensures CountTop(log + [e]) == CountTop(log) + if e.from.None? then 1 else 0
    ensures CountTopInserted(log + [e]) == CountTopInserted(log) + if e.Inserted? && e.from.None? then 1 else 0
  {
    assert (log + [e])[..|log|] == log;
  }

  /**
   * The inner loop records only links of a top-level page, counts each skip
   * and leaves `page_process_counter` alone.
   */
  lemma {:induction false} ChildLoopCounts(s: State, children: seq<string>, url: string, scrape: string -> Option<Page>)
    ensures var t := ChildLoop(s, children, url, scrape);
      && t.processed == s.processed
      && CountTop(t.log) == CountTop(s.log)
      && CountTopInserted(t.log) == CountTopInserted(s.log)
      && CountLinks(t.log, scrape) == CountLinks(s.log, scrape)
      && t.skipped + CountSkipped(s.log) == s.skipped + CountSkipped(t.log)
    decreases |children|
  {
    if |children| > 0 {
      var init := children[..|children| - 1];
      ChildLoopCounts(s, init, url, scrape);
      var mid := ChildLoop(s, init, url, scrape);
      var c := children[|children| - 1];
      if c in mid.pages {
        CountsAppend(mid.log, Skipped(c, Some(url)));
        LinksAppend(mid.log, Skipped(c, Some(url)), scrape);
      } else if scrape(c).None? {
        CountsAppend(mid.log, Failed(c, Some(url)));
        LinksAppend(mid.log, Failed(c, Some(url)), scrape);
      } else {
        CountsAppend(mid.log, Inserted(c, Some(url)));
        LinksAppend(mid.log, Inserted(c, Some(url)), scrape);
      }
    }
  }

  /**
   * One seed link adds one top-level event, counts its own skip or insertion,
   * and adds one more event per link of the page it stores.
   */
  lemma TopStepCounts(s: State, url: string, scrape: string -> Option<Page>)
    ensures var t := TopStep(s, url, scrape);
      && CountTop(t.log) == CountTop(s.log) + 1
      && t.skipped + CountSkipped(s.log) == s.skipped + CountSkipped(t.log)
      && t.processed + CountTopInserted(s.log) == s.processed + CountTopInserted(t.log)
      && |t.log| + CountLinks(s.log, scrape) == |s.log| + 1 + CountLinks(t.log, scrape)
  {
    if url in s.pages {
      CountsAppend(s.log, Skipped(url, None));
      LinksAppend(s.log, Skipped(url, None), scrape);
    } else if scrape(url).None? {
      CountsAppend(s.log, Failed(url, None));
      LinksAppend(s.log, Failed(url, None), scrape);
    } else {
      var page := scrape(url).value;
      CountsAppend(s.log, Inserted(url, None));
      LinksAppend(s.log, Inserted(url, None), scrape);
      var stored := s.(pages := s.pages[url := Entry(page, MainUrl)], log := s.log + [Inserted(url, None)]);
      ChildLoopCounts(stored, page.childPages, url, scrape);
    }
  }

  /**
   * After the outer loop over `urls`: one top-level event per seed link,
   * `skipped_page_counter` counts the skips at both levels,
   * `page_process_counter` the seed links that were stored, and every other
   * event is one link of a stored seed page.
   */
  lemma {:induction false} TopLoopCounts(urls: seq<string>, scrape: string -> Option<Page>)
    ensures var t := TopLoop(Start, urls, scrape);
      Counted(t) && CountTop(t.log) == |urls| && |t.log| == |urls| + CountLinks(t.log, scrape)
    decreases |urls|
  {
    if |urls| > 0 {
      var init := urls[..|urls| - 1];
      TopLoopCounts(init, scrape);
      TopStepCounts(TopLoop(Start, init, scrape), urls[|urls| - 1], scrape);
    }
  }

  // ---------------------------------------------------------------------------
  // Entries are never overwritten

  /**
   * A seed link that is stored keeps the entry it gets first, even when its
   * own links include itself: the self-link is met as a key, skipped and
   * counted, and not scraped again.
   */
  lemma TopStepKeepsOwnEntry(s: State, url: string, scrape: string -> Option<Page>)
    requires url !in s.pages && scrape(url).Some?
    ensures var t := TopStep(s, url, scrape);
      && url in t.pages && t.pages[url] == Entry(scrape(url).value, MainUrl)
      && (url in scrape(url).value.childPages ==> Skipped(url, Some(url)) in t.log)
      && (forall i :: |s.log| < i < |t.log| && t.log[i].url == url ==> t.log[i] == Skipped(url, Some(url)))
  {
    var page := scrape(url).value;
    var stored := s.(pages := s.pages[url := Entry(page, MainUrl)], log := s.log + [Inserted(url, None)]);
    var after := ChildLoop(stored, page.childPages, url, scrape);
    forall i | |s.log| < i < |after.log| && after.log[i].url == url
      ensures after.log[i] == Skipped(url, Some(url))
    {
      var j := i - |stored.log|;
      ChildLoopEvents(stored, page.childPages, j, url, scrape);
    }
    if url in page.childPages {
      var j :| 0 <= j < |page.childPages| && page.childPages[j] == url;
      ChildLoopEvents(stored, page.childPages, j, url, scrape);
      assert after.log[|stored.log| + j] == Skipped(url, Some(url));
    }
  }

  /** An entry present after any number of seed links is there, unchanged, at the end. */
  lemma {:induction false} NeverOverwritten(urls: seq<string>, n: nat, scrape: string -> Option<Page>)
    requires n <= |urls|
    ensures Extends(TopLoop(Start, urls[..n], scrape).pages, TopLoop(Start, urls, scrape).pages)
    decreases |urls| - n
  {
    if n == |urls| {
      assert urls[..n] == urls;
    } else {
      var init := urls[..|urls| - 1];
      assert init[..n] == urls[..n];
      NeverOverwritten(init, n, scrape);
    }
  }

  // ---------------------------------------------------------------------------
  // Every link the loops should store is stored

  /** After the inner loop, every link that scrapes to a page is a key. */
  lemma {:induction false} ChildLoopCovers(s: State, children: seq<string>, url: string, scrape: string -> Option<Page>)
    ensures var t := ChildLoop(s, children, url, scrape);
      forall c :: c in children && scrape(c).Some? ==> c in t.pages
    decreases |children|
  {
    if |children| > 0 {
      var init := children[..|children| - 1];
      ChildLoopCovers(s, init, url, scrape);
      assert forall c :: c in children ==> c in init || c == children[|children| - 1];
    }
  }

  /**
   * Every seed link that scrapes to a page is a key, every page stored as a
   * seed link is a key, and every link of such a page that scrapes to a page
   * is a key.
   */
  ghost predicate Covered(t: State, urls: seq<string>, scrape: string -> Option<Page>) {
    && (forall u :: u in urls && scrape(u).Some? ==> u in t.pages)
    && (forall p :: Inserted(p, None) in t.log ==> p in t.pages)
    && (forall p, c :: Inserted(p, None) in t.log && p in t.pages && c in t.pages[p].page.childPages && scrape(c).Some?
          ==> c in t.pages)
  }

  /** The outer loop over `urls` covers them and the links of the pages it stores. */
  lemma {:induction false} TopLoopCovers(urls: seq<string>, scrape: string -> Option<Page>)
    ensures Covered(TopLoop(Start, urls, scrape), urls, scrape)
    decreases |urls|
  {
    if |urls| > 0 {
      var init := urls[..|urls| - 1];
      TopLoopCovers(init, scrape);
      var s := TopLoop(Start, init, scrape);
      var url := urls[|urls| - 1];
      var t := TopStep(s, url, scrape);
      assert forall u :: u in urls ==> u in init || u == url;
      if url !in s.pages && scrape(url).Some? {
        var page := scrape(url).value;
        var stored := s.(pages := s.pages[url := Entry(page, MainUrl)], log := s.log + [Inserted(url, None)]);
        ChildLoopCovers(stored, page.childPages, url, scrape);
        ChildLoopFrom(stored, page.childPages, url, scrape);
        forall p | Inserted(p, None) in t.log
          ensures p == url || Inserted(p, None) in s.log
        {
          var i :| 0 <= i < |t.log| && t.log[i] == Inserted(p, None);
          if i < |s.log| {
            assert s.log[i] == t.log[i];
          }
        }
      }
    }
  }

  /**
   * The inner loop only appends to the log, and every event it appends is
   * about a link met on `url`'s page, never a seed link.
   */
  lemma {:induction false} ChildLoopFrom(s: State, children: seq<string>, url: string, scrape: string -> Option<Page>)
    ensures var t := ChildLoop(s, children, url, scrape);
      s.log <= t.log && forall i :: |s.log| <= i < |t.log| ==> t.log[i].from == Some(url)
    decreases |children|
  {
    if |children| > 0 {
      ChildLoopFrom(s, children[..|children| - 1], url, scrape);
    }
  }

  /** The log after the first `k` links is a prefix of the log after all of them. */
  lemma {:induction false} ChildLoopPrefix(s: State, children: seq<string>, k: nat, url: string, scrape: string -> Option<Page>)
    requires k <= |children|
    ensures ChildLoop(s, children[..k], url, scrape).log <= ChildLoop(s, children, url, scrape).log
    decreases |children|
  {
    if k == |children| {
      assert children[..k] == children;
    } else {
      var init := children[..|children| - 1];
      assert init[..k] == children[..k];
      ChildLoopPrefix(s, init, k, url, scrape);
    }
  }

  /**
   * The inner loop records one event per link, in order: the `j`-th new
   * event is about `children[j]`, met at `url`, and it is a skip exactly
   * when that link was already a key after the first `j` links.
   */
  lemma ChildLoopEvents(s: State, children: seq<string>, j: nat, url: string, scrape: string -> Option<Page>)
    requires j < |children|
    ensures var t := ChildLoop(s, children, url, scrape); var e := t.log[|s.log| + j];
      && e.url == children[j] && e.from == Some(url)
      && (e.Skipped? <==> children[j] in ChildLoop(s, children[..j], url, scrape).pages)
  {
    var first := children[..j + 1];
    assert first[..j] == children[..j] && first[j] == children[j];
    ChildLoopPrefix(s, children, j + 1, url, scrape);
  }

  // ---------------------------------------------------------------------------
  // The crawl as a whole

  /**
   * What the crawl over the seed links `pageUrls` ends with: every entry is
   * what scraping its key gave, with a correct `parent_page`; every key was
   * scraped and stored exactly once; no URL whose scrape failed is a key;
   * every URL met is a seed link or a link of a top-level page, so nothing
   * deeper than two levels is met; and the counters count what the log says.
   */
  lemma CrawlFacts(pageUrls: seq<string>, scrape: string -> Option<Page>)
    ensures var t := TopLoop(Start, pageUrls, scrape);
      && (forall k :: k in t.pages ==> EntryOk(t.pages, k, pageUrls, scrape))
      && (forall k :: k in t.pages ==> InsertCount(t.log, k) == 1)
      && (forall i :: 0 <= i < |t.log| && t.log[i].Failed? ==> t.log[i].url !in t.pages)
      && (forall i :: 0 <= i < |t.log| ==> Reached(t.pages, t.log[i].url, t.log[i].from, pageUrls))
      && (forall i :: 0 <= i < |t.log| && t.log[i].Inserted? ==>
            t.log[i].url in t.pages && t.pages[t.log[i].url].parentPage == ParentName(t.log[i].from))
      && t.skipped == CountSkipped(t.log)
      && t.processed == CountTopInserted(t.log) <= |pageUrls|
      && |t.log| == |pageUrls| + CountLinks(t.log, scrape)
  {
    var t := TopLoop(Start, pageUrls, scrape);
    TopLoopGood(pageUrls, pageUrls, scrape);
    TopLoopCounts(pageUrls, scrape);
    forall i | 0 <= i < |t.log|
      ensures (t.log[i].Failed? ==> t.log[i].url !in t.pages) && Reached(t.pages, t.log[i].url, t.log[i].from, pageUrls)
      ensures t.log[i].Inserted? ==> t.log[i].url in t.pages && t.pages[t.log[i].url].parentPage == ParentName(t.log[i].from)
    {
      assert EventOk(t.pages, t.log[i], pageUrls, scrape);
    }
  }

  /**
   * When every seed link and every link a scrape returns lies in the site's
   * domain (as `get_urls` guarantees), every key of `pages` does.
   */
  lemma CrawlKeysInDomain(pageUrls: seq<string>, scrape: string -> Option<Page>)
    requires forall u :: u in pageUrls ==> Contains(u, Domain)
    requires forall u :: scrape(u).Some? ==> forall c :: c in scrape(u).value.childPages ==> Contains(c, Domain)
    ensures forall k :: k in TopLoop(Start, pageUrls, scrape).pages ==> Contains(k, Domain)
  {
    var t := TopLoop(Start, pageUrls, scrape);
    TopLoopGood(pageUrls, pageUrls, scrape);
    forall k | k in t.pages
      ensures Contains(k, Domain)
    {
      assert EntryOk(t.pages, k, pageUrls, scrape);
      var parent := t.pages[k].parentPage;
      if !(parent == MainUrl && k in pageUrls) {
        assert EntryOk(t.pages, parent, pageUrls, scrape);
      }
    }
  }

  /**
   * On the real site no scrape fails: every URL the loops meet is in the
   * domain, whose two dots make `scrape_page` return a record. So the log
   * holds no failed scrape, and no URL is scraped twice, since a URL is
   * scraped only when it is not yet a key and is a key from then on.
   */
  lemma CrawlScrapesOnce(pageUrls: seq<string>, fetch: string -> Document, scrape: string -> Option<Page>)
    requires forall u :: u in pageUrls ==> Contains(u, Domain)
    requires forall u :: ScrapeOk(u, fetch, scrape(u))
    ensures var t := TopLoop(Start, pageUrls, scrape);
      && (forall i :: 0 <= i < |t.log| ==> !t.log[i].Failed?)
      && (forall i, j :: 0 <= i < j < |t.log| && !t.log[i].Skipped? && !t.log[j].Skipped? ==> t.log[i].url != t.log[j].url)
  {
    var t := TopLoop(Start, pageUrls, scrape);
    TopLoopGood(pageUrls, pageUrls, scrape);
    forall i | 0 <= i < |t.log|
      ensures !t.log[i].Failed?
    {
      var e := t.log[i];
      assert EventOk(t.pages, e, pageUrls, scrape);
      if e.from.Some? {
        var p := e.from.value;
        assert EntryOk(t.pages, p, pageUrls, scrape);
        ScrapedLinksInDomain(p, fetch, scrape(p));
      }
      InDomainScrapes(e.url, fetch, scrape(e.url));
    }
    forall i, j | 0 <= i < j < |t.log| && !t.log[i].Skipped? && !t.log[j].Skipped?
      ensures t.log[i].url != t.log[j].url
    {
      if t.log[i].url == t.log[j].url {
        assert EventOk(t.pages, t.log[i], pageUrls, scrape);
        InsertCountTwice(t.log, t.log[i].url, i, j);
      }
    }
  }

  /**
   * The whole script (main.py:11-83): the seed links are `get_urls` of the
   * content region of the seed page, then the nested loop runs over them
   * with `scrape` giving, for every URL, what `scrape_page` gives when the
   * site serves `fetch`. Every seed link is stored, since no scrape of an
   * in-domain URL fails.
   */
  method Crawl(fetch: string -> Document, scrape: string -> Option<Page>)
    returns (pages: map<string, Entry>, pageProcessCounter: nat, skippedPageCounter: nat)
    requires forall u :: ScrapeOk(u, fetch, scrape(u))
    ensures forall k :: k in pages ==> Contains(k, Domain) && CountChar(k, '.') >= 2 && scrape(k) == Some(pages[k].page)
    ensures forall k :: k in pages ==>
      || k in UrlSet(fetch(MainUrl).hrefs)
      || var parent := pages[k].parentPage; parent in pages && pages[parent].parentPage == MainUrl && k in pages[parent].page.childPages
    ensures forall u :: u in UrlSet(fetch(MainUrl).hrefs) ==> u in pages
    ensures pageProcessCounter <= |UrlSet(fetch(MainUrl).hrefs)|
  {
    var seed := fetch(MainUrl);
    var pageUrls := GetUrls(seed.hrefs);
    pages, pageProcessCounter, skippedPageCounter := CrawlLinks(pageUrls, scrape);
    forall u
      ensures u in pageUrls <==> u in UrlSet(seed.hrefs)
    {
      UrlSetMembers(seed.hrefs, u);
    }
    forall u
      ensures scrape(u).Some? ==> CountChar(u, '.') >= 2 && forall c :: c in scrape(u).value.childPages ==> Contains(c, Domain)
    {
      ScrapedLinksInDomain(u, fetch, scrape(u));
    }
    forall u | u in pageUrls
      ensures scrape(u).Some?
    {
      InDomainScrapes(u, fetch, scrape(u));
    }
    CrawlKeysInDomain(pageUrls, scrape);
    DistinctLength(pageUrls, UrlSet(seed.hrefs));
  }

  /** A duplicate-free sequence with the members of `s` is as long as `s` is large. */
  lemma {:induction false} DistinctLength(xs: seq<string>, s: set<string>)
    requires NoDuplicates(xs) && forall u :: u in xs <==> u in s
    ensures |xs| == |s|
    decreases |xs|
  {
    if |xs| > 0 {
      var init := xs[..|xs| - 1];
      var last := xs[|xs| - 1];
      assert forall u :: u in xs <==> u in init || u == last;
      assert last !in init;
      DistinctLength(init, s - {last});
    }
  }
}
