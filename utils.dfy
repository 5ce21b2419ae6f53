/**
 * utils.py of the njcourts.gov jury-page scraper: turning hrefs into absolute
 * in-domain URLs, classifying a URL by its dots and scraping it, and the
 * naming and metadata of the blobs `upload_to_blob` writes.
 *
 * HTTP and HTML parsing are an oracle `fetch` that gives, for a URL, the
 * page's `<title>` string, the text of its `page-content` region and the
 * `href` of every anchor in that region. The Azure calls are replaced by the
 * records (name, content, metadata) they would upload.
 */
module Utils {
  import opened Wrappers
  import opened Strings
  import opened Bytes
  import Base64
  import Utf8

  /** The site every kept link belongs to (utils.py:8). */
  const Domain: string := "https://www.njcourts.gov"

  /** What the scraper keeps of a fetched HTML page. */
  datatype Document = Document(title: string, text: string, hrefs: seq<Option<string>>)

  /** The dict `scrape_page` returns. */
  datatype Page = Page(title: string, text: string, childPages: seq<string>, isFile: bool)

  // ---------------------------------------------------------------------------
  // format_url and get_urls

  /**
   * `format_url`: a root-relative path becomes an absolute URL on `Domain`;
   * anything else is returned as it is. Reading `url[0]` needs a non-empty
   * argument.
   */
  function FormatUrl(url: string): (r: string)
    requires |url| > 0
    ensures |r| > 0 && r[0] != '/'
    ensures url[0] == '/' <==> r != url
  {
    if url[0] == '/' then Domain + url else url
  }

  /** Formatting twice is formatting once: an absolute URL never starts with `/`. */
  lemma FormatUrlIdempotent(url: string)
    requires |url| > 0
    ensures FormatUrl(FormatUrl(url)) == FormatUrl(url)
  {
  }

  /** The test an anchor's href passes in `get_urls` to be kept. */
  predicate Kept(href: Option<string>)
    ensures Kept(href) ==> href.Some? && |href.value| > 0 && Contains(FormatUrl(href.value), Domain)
  {
    href.Some? && |href.value| > 0 && (href.value[0] == '/' || Contains(href.value, Domain))
  }

  /** The set `main_urls` once the given anchors have been seen. */
  function UrlSet(hrefs: seq<Option<string>>): (urls: set<string>)
    ensures forall u :: u in urls ==> Contains(u, Domain)
  {
    if |hrefs| == 0 then {}
    else
      var last := hrefs[|hrefs| - 1];
      UrlSet(hrefs[..|hrefs| - 1]) + if Kept(last) then {FormatUrl(last.value)} else {}
  }

  /** A URL is in the set exactly when some kept href formats to it. */
  lemma {:induction false} UrlSetMembers(hrefs: seq<Option<string>>, u: string)
    ensures u in UrlSet(hrefs) <==> exists i :: 0 <= i < |hrefs| && Kept(hrefs[i]) && FormatUrl(hrefs[i].value) == u
  {
    if |hrefs| > 0 {
      var init := hrefs[..|hrefs| - 1];
      UrlSetMembers(init, u);
      if exists i :: 0 <= i < |hrefs| && Kept(hrefs[i]) && FormatUrl(hrefs[i].value) == u {
        var i :| 0 <= i < |hrefs| && Kept(hrefs[i]) && FormatUrl(hrefs[i].value) == u;
        if i < |hrefs| - 1 {
          assert init[i] == hrefs[i];
        }
      }
      if exists i :: 0 <= i < |init| && Kept(init[i]) && FormatUrl(init[i].value) == u {
        var i :| 0 <= i < |init| && Kept(init[i]) && FormatUrl(init[i].value) == u;
        assert hrefs[i] == init[i];
      }
    }
  }

  /** `list(main_urls)`: the elements of a set, each once, in some order. */
  method ListOf(s: set<string>) returns (xs: seq<string>)
    ensures NoDuplicates(xs)
    ensures forall x :: x in xs <==> x in s
  {
    xs := [];
    var rest := s;
    while rest != {}
      invariant rest <= s
      invariant NoDuplicates(xs)
      invariant forall x :: x in xs <==> x in s && x !in rest
      decreases |rest|
    {
      var x :| x in rest;
      xs := xs + [x];
      rest := rest - {x};
    }
  }

  /**
   * `get_urls`: the in-domain URLs of the anchors, each once. Anchors without
   * an href or with an empty one are skipped, and so are hrefs that neither
   * start with `/` nor contain `Domain`.
   */
  method GetUrls(hrefs: seq<Option<string>>) returns (urls: seq<string>)
    ensures NoDuplicates(urls)
    ensures forall u :: u in urls <==> exists i :: 0 <= i < |hrefs| && Kept(hrefs[i]) && FormatUrl(hrefs[i].value) == u
    ensures forall u :: u in urls ==> Contains(u, Domain)
  {
    var mainUrls: set<string> := {};
    for i := 0 to |hrefs|
      invariant mainUrls == UrlSet(hrefs[..i])
    {
      assert hrefs[..i + 1][..i] == hrefs[..i];
      var href := hrefs[i];
      if href.None? || |href.value| == 0 {
        continue;
      }
      if href.value[0] == '/' || Contains(href.value, Domain) {
        mainUrls := mainUrls + {FormatUrl(href.value)};
      }
    }
    assert hrefs[..|hrefs|] == hrefs;
    urls := ListOf(mainUrls);
    forall u
      ensures u in urls <==> exists i :: 0 <= i < |hrefs| && Kept(hrefs[i]) && FormatUrl(hrefs[i].value) == u
    {
      UrlSetMembers(hrefs, u);
    }
  }

  // ---------------------------------------------------------------------------
  // scrape_page

  /** `url.split("/")[-1]`: what follows the last `/`. */
  function LastSegment(url: string): (segment: string) {
    var segments := Split(url, '/');
    segments[|segments| - 1]
  }

  /** `url.split("/")[-1].split("?")[0]`: the title of a file record. */
  function FileTitle(url: string): (title: string)
    ensures '/' !in title && '?' !in title
  {
    var segments := Split(url, '/');
    SplitPartsAreFree(url, '/');
    assert segments[|segments| - 1] in segments;
    var seg := LastSegment(url);
    SplitFirst(seg, '?');
    var title := Split(seg, '?')[0];
    assert forall i :: 0 <= i < |title| ==> title[i] == seg[i];
    title
  }

  /** The last segment is the suffix of the URL after its last `/` (all of it if there is none). */
  lemma LastSegmentIsSuffix(url: string)
    ensures var seg := LastSegment(url);
      |seg| <= |url| && url[|url| - |seg|..] == seg && '/' !in seg
      && (|seg| == |url| || url[|url| - |seg| - 1] == '/')
  {
    SplitLast(url, '/');
    SplitPartsAreFree(url, '/');
  }

  /** A file title is the last segment cut at its first `?`. */
  lemma FileTitleIsSegmentBeforeQuery(url: string)
    ensures var seg, title := LastSegment(url), FileTitle(url);
      title <= seg && (|title| == |seg| || seg[|title|] == '?')
  {
    SplitFirst(LastSegment(url), '?');
  }

  /**
   * What `scrape_page` gives for `url` when `fetch` is what the site serves.
   * `url.split(".")` has one more part than `url` has dots: three or more
   * dots make a file record, exactly two make a page record built from the
   * fetched document, and fewer give `None`.
   */
  ghost predicate ScrapeOk(url: string, fetch: string -> Document, r: Option<Page>) {
    && (r.None? <==> CountChar(url, '.') < 2)
    && (CountChar(url, '.') >= 3 ==> r == Some(Page(FileTitle(url), "", [], true)))
    && (CountChar(url, '.') == 2 ==>
          && r.Some? && !r.value.isFile
          && r.value.title == fetch(url).title && r.value.text == fetch(url).text
          && NoDuplicates(r.value.childPages)
          && (forall u :: u in r.value.childPages <==> u in UrlSet(fetch(url).hrefs))
          && (forall u :: u in r.value.childPages ==> Contains(u, Domain)))
  }

  /** `scrape_page` (utils.py:80-111). */
  method ScrapePage(url: string, fetch: string -> Document) returns (page: Option<Page>)
    ensures ScrapeOk(url, fetch, page)
  {
    var splitUrl := Split(url, '.');
    SplitLength(url, '.');
    if |splitUrl| > 3 {
      page := Some(Page(FileTitle(url), "", [], true));
    } else if |splitUrl| == 3 {
      var soup := fetch(url);
      var childPages := GetUrls(soup.hrefs);
      page := Some(Page(soup.title, soup.text, childPages, false));
      forall u
        ensures u in childPages <==> u in UrlSet(soup.hrefs)
      {
        UrlSetMembers(soup.hrefs, u);
      }
    } else {
      page := None;
    }
  }

  /**
   * Whatever `scrape_page` gives lies in the site: a URL it scrapes has at
   * least two dots, and every link of a page it returns is in the domain.
   */
  lemma ScrapedLinksInDomain(url: string, fetch: string -> Document, r: Option<Page>)
    requires ScrapeOk(url, fetch, r)
    ensures r.Some? ==> CountChar(url, '.') >= 2 && forall c :: c in r.value.childPages ==> Contains(c, Domain)
  {
  }

  /** A URL in the domain has at least the two dots of `www.njcourts.gov`. */
  lemma DomainDots(url: string)
    requires Contains(url, Domain)
    ensures CountChar(url, '.') >= 2
  {
    assert Domain[11] == '.' && Domain[20] == '.';
    ContainsTwoAt(url, Domain, '.', 11, 20);
  }

  /** `scrape_page` never gives `None` for a URL in the domain. */
  lemma InDomainScrapes(url: string, fetch: string -> Document, r: Option<Page>)
    requires ScrapeOk(url, fetch, r) && Contains(url, Domain)
    ensures r.Some?
  {
    DomainDots(url);
  }

  // ---------------------------------------------------------------------------
  // upload_to_blob

  /** A page as `upload_to_blob` reads it: the scraped fields plus `parent_pages`. */
  datatype StoredPage = StoredPage(page: Page, parentPages: seq<string>)

  /** A value of the metadata dict: a string, a list of strings or a bool. */
  datatype Value = Str(s: string) | StrList(items: seq<string>) | Flag(b: bool)

  /** What a blob holds: a copy of the file at a URL, or a JSON document. */
  datatype Content = CopyFromUrl(source: string) | JsonDocument(fields: map<string, Value>)

  /** One upload: the blob's name, its content and its metadata. */
  datatype Blob = Blob(name: string, content: Content, metadata: map<string, Value>)

  /** The dict of a page, as `metadata.update(page_content)` copies it. */
  function PageFields(p: StoredPage): (fields: map<string, Value>) {
    map[
      "title" := Str(p.page.title),
      "text" := Str(p.page.text),
      "child_pages" := StrList(p.page.childPages),
      "isFile" := Flag(p.page.isFile),
      "parent_pages" := StrList(p.parentPages)
    ]
  }

  /** `b64encode(url.encode("utf-8")).decode("utf-8").rstrip("=")`. */
  function BlobPrefix(url: string): (prefix: string)
    ensures Base64.IsAlphabetText(prefix) && Base64.Pad(prefix) == Base64.Encode(Utf8.Encode(url))
  {
    Base64.StripPadRoundTrip(Utf8.Encode(url));
    RStrip(Base64.Encode(Utf8.Encode(url)), Base64.PadChar)
  }

  /** Reading a blob-name prefix back: re-pad, base 64 decode, UTF-8 decode. */
  function UrlOfPrefix(prefix: string): (url: Option<string>) {
    match Base64.Decode(Base64.Pad(prefix))
    case None => None
    case Some(bytes) => Utf8.Decode(bytes)
  }

  /**
   * The prefix uses only the base 64 alphabet (in particular no `=`), and
   * re-padding and decoding it gives the URL back.
   */
  lemma BlobPrefixRoundTrip(url: string)
    ensures Base64.IsAlphabetText(BlobPrefix(url)) && Base64.PadChar !in BlobPrefix(url)
    ensures UrlOfPrefix(BlobPrefix(url)) == Some(url)
  {
    var bytes := Utf8.Encode(url);
    Base64.StripPadRoundTrip(bytes);
    Base64.DecodeEncode(bytes);
    Utf8.DecodeEncode(url);
  }

  /** Different URLs have different prefixes. */
  lemma BlobPrefixInjective(u1: string, u2: string)
    requires u1 != u2
    ensures BlobPrefix(u1) != BlobPrefix(u2)
  {
    BlobPrefixRoundTrip(u1);
    BlobPrefixRoundTrip(u2);
  }

  /** The metadata a page's blob carries: `url` set, `text` dropped, lists and the flag as Python `str()`. */
  function FinalMetadata(url: string, p: StoredPage, pyStr: Value -> string): (metadata: map<string, Value>)
    ensures metadata.Keys == PageFields(p).Keys - {"text"} + {"url"}
    ensures forall k :: k in metadata ==> metadata[k].Str?
    ensures metadata["url"] == Str(url) && metadata["title"] == PageFields(p)["title"]
  {
    map[
      "url" := Str(url),
      "title" := Str(p.page.title),
      "child_pages" := Str(pyStr(StrList(p.page.childPages))),
      "isFile" := Str(pyStr(Flag(p.page.isFile))),
      "parent_pages" := Str(pyStr(StrList(p.parentPages)))
    ]
  }

  /** The blob uploaded for one page. */
  function BlobRecord(url: string, p: StoredPage, pyStr: Value -> string): (blob: Blob)
    ensures blob.name == BlobPrefix(url) + NameSuffix(p)
    ensures blob.content.CopyFromUrl? <==> p.page.isFile
    ensures blob.content == CopyFromUrl(url) || blob.content == JsonDocument(PageFields(p)["url" := Str(url)])
    ensures blob.metadata == FinalMetadata(url, p, pyStr)
  {
    if p.page.isFile then
      Blob(BlobPrefix(url) + "_" + p.page.title, CopyFromUrl(url), FinalMetadata(url, p, pyStr))
    else
      Blob(BlobPrefix(url) + ".json", JsonDocument(PageFields(p)["url" := Str(url)]), FinalMetadata(url, p, pyStr))
  }

  /**
   * The JSON document of a page's blob (`BlobRecord`) loses nothing: it
   * determines the URL and every field of the stored page.
   */
  lemma JsonDocumentKeepsPage(u1: string, p1: StoredPage, u2: string, p2: StoredPage)
    requires PageFields(p1)["url" := Str(u1)] == PageFields(p2)["url" := Str(u2)]
    ensures u1 == u2 && p1 == p2
  {
    var d1, d2 := PageFields(p1)["url" := Str(u1)], PageFields(p2)["url" := Str(u2)];
    assert d1["url"] == d2["url"] && d1["title"] == d2["title"] && d1["text"] == d2["text"];
    assert d1["child_pages"] == d2["child_pages"] && d1["isFile"] == d2["isFile"] && d1["parent_pages"] == d2["parent_pages"];
  }

  /**
   * The body of one iteration of `upload_to_blob`, which builds the metadata
   * dict in place: `{"url": ...}`, `update` with the page, serialise (pages
   * only), `pop("text")`, then replace the lists and the flag by their
   * `str()`. `pyStr` is Python's `str()`.
   */
  method UploadOne(url: string, p: StoredPage, pyStr: Value -> string) returns (blob: Blob)
    ensures blob == BlobRecord(url, p, pyStr)
    ensures "text" !in blob.metadata && blob.metadata["url"] == Str(url)
    ensures forall k :: k in blob.metadata ==> blob.metadata[k].Str?
    ensures !p.page.isFile ==> blob.content.JsonDocument? && blob.content.fields["text"] == Str(p.page.text)
  {
    var metadata: map<string, Value> := map["url" := Str(url)];
    metadata := metadata + PageFields(p);
    assert metadata == PageFields(p)["url" := Str(url)];
    var encodedStr := RStrip(Base64.Encode(Utf8.Encode(url)), Base64.PadChar);
    if p.page.isFile {
      var filename := p.page.title;
      metadata := metadata - {"text"};
      metadata := metadata["parent_pages" := Str(pyStr(metadata["parent_pages"]))];
      metadata := metadata["child_pages" := Str(pyStr(metadata["child_pages"]))];
      metadata := metadata["isFile" := Str(pyStr(metadata["isFile"]))];
      assert metadata == FinalMetadata(url, p, pyStr);
      blob := Blob(encodedStr + "_" + filename, CopyFromUrl(url), metadata);
    } else {
      var data := metadata;
      metadata := metadata - {"text"};
      metadata := metadata["parent_pages" := Str(pyStr(metadata["parent_pages"]))];
      metadata := metadata["child_pages" := Str(pyStr(metadata["child_pages"]))];
      metadata := metadata["isFile" := Str(pyStr(metadata["isFile"]))];
      assert metadata == FinalMetadata(url, p, pyStr);
      blob := Blob(encodedStr + ".json", JsonDocument(data), metadata);
    }
  }

  /** The part of a blob name after the prefix: `_` and the title for a file, `.json` for a page. */
  function NameSuffix(p: StoredPage): (suffix: string)
    ensures |suffix| > 0 && !Base64.IsAlphabet(suffix[0])
  {
    if p.page.isFile then "_" + p.page.title else ".json"
  }

  /**
   * A string that is a run of alphabet characters followed by a character
   * outside the alphabet splits there in only one way.
   */
  lemma AlphabetRunIsUnique(p1: string, t1: string, p2: string, t2: string)
    requires p1 + t1 == p2 + t2
    requires Base64.IsAlphabetText(p1) && Base64.IsAlphabetText(p2)
    requires |t1| > 0 && !Base64.IsAlphabet(t1[0])
    requires |t2| > 0 && !Base64.IsAlphabet(t2[0])
    ensures p1 == p2
  {
    assert p1 == (p1 + t1)[..|p1|];
    assert p2 == (p2 + t2)[..|p2|];
  }

  /** Two different URLs never get the same blob name, so no upload replaces another. */
  lemma BlobNamesDistinct(u1: string, p1: StoredPage, u2: string, p2: StoredPage, pyStr: Value -> string)
    requires u1 != u2
    ensures BlobRecord(u1, p1, pyStr).name != BlobRecord(u2, p2, pyStr).name
  {
    BlobPrefixRoundTrip(u1);
    BlobPrefixRoundTrip(u2);
    BlobPrefixInjective(u1, u2);
    var b1, b2 := BlobPrefix(u1), BlobPrefix(u2);
    var s1, s2 := NameSuffix(p1), NameSuffix(p2);
    if b1 + s1 == b2 + s2 {
      AlphabetRunIsUnique(b1, s1, b2, s2);
    }
  }

  /**
   * `upload_to_blob`: one blob per page, each the record `UploadOne` builds,
   * under pairwise different names. Dict order is not modelled: the pages
   * are taken in some order, returned as `order`.
   */
  method UploadToBlob(pages: map<string, StoredPage>, pyStr: Value -> string)
    returns (blobs: seq<Blob>, ghost order: seq<string>)
    ensures |blobs| == |order| == |pages|
    ensures NoDuplicates(order) && forall url :: url in order <==> url in pages
    ensures forall i :: 0 <= i < |blobs| ==> order[i] in pages && blobs[i] == BlobRecord(order[i], pages[order[i]], pyStr)
    ensures forall i, j :: 0 <= i < j < |blobs| ==> blobs[i].name != blobs[j].name
  {
    blobs, order := [], [];
    var rest := pages.Keys;
    while rest != {}
      invariant rest <= pages.Keys
      invariant |blobs| == |order| && |order| + |rest| == |pages|
      invariant NoDuplicates(order)
      invariant forall url :: url in order <==> url in pages && url !in rest
      invariant forall i :: 0 <= i < |blobs| ==> order[i] in pages && blobs[i] == BlobRecord(order[i], pages[order[i]], pyStr)
      invariant forall i, j :: 0 <= i < j < |blobs| ==> blobs[i].name != blobs[j].name
      decreases |rest|
    {
      var pageUrl :| pageUrl in rest;
      var blob := UploadOne(pageUrl, pages[pageUrl], pyStr);
      forall i | 0 <= i < |blobs|
        ensures blobs[i].name != blob.name
      {
        BlobNamesDistinct(order[i], pages[order[i]], pageUrl, pages[pageUrl], pyStr);
      }
      blobs, order := blobs + [blob], order + [pageUrl];
      rest := rest - {pageUrl};
    }
  }
}
