# njcourts.gov jury-page scraper, modelled in Dafny

This project models the core of a small scraper for the jury pages of
njcourts.gov. It has two parts.

- **utils.py.**
  - `format_url` makes a root-relative path absolute.
  - `get_urls` reduces the anchors of a content region to a duplicate-free list of in-domain URLs.
  - `scrape_page` classifies a URL by the number of dots in it. The result is a file record, an HTML page record built from the fetched document, or `None`.
  - `upload_to_blob` turns every stored page into one blob. The blob name is the unpadded base 64 of the UTF-8 URL plus a suffix. The blob also gets a JSON body or a copy-from-URL source, and a metadata dict.
- **main.py.** The two-level crawl from the seed page `https://www.njcourts.gov/jurors/reporting`.
  - Each seed link is scraped and stored with `parent_page` set to the seed page.
  - Then each link of that page is scraped and stored with the top-level URL as its `parent_page`.
  - A URL that is already a key is skipped and counted.
  - A URL whose scrape gives `None` is dropped.

Files:

- `wrappers.dfy`: `Option`.
- `bytes.dfy`: the `Byte` type.
- `strings.dfy`: Python's `str.count`, `str.split`, `str.join` and `str.rstrip` for one-character arguments, and `NoDuplicates` and substring `Contains`.
- `base64.dfy`: base 64 with padding, as in section 4 of RFC 4648: the encoder `b64encode`, a decoder that rejects malformed lengths and misplaced `=` (it accepts non-zero pad bits, as section 3.5 of RFC 4648 allows), and re-padding.
- `utf8.dfy`: UTF-8 as in section 3 of RFC 3629: the encoder `str.encode("utf-8")` and a strict decoder.
- `utils.dfy`: utils.py.
- `crawler.dfy`: main.py.

The model is built around oracles.

- **Fetching and parsing.** `get_soup` with `find` / `find_all` becomes an oracle `fetch: string -> Document`. The document is a title, the text of the `page-content` region and the `href` of each anchor in that region, where `None` means the anchor has no `href`. The seed links are read from `fetch(MainUrl)` (main.py:12-14).
- **Scraping inside the crawl.** In main.py, `scrape_page` is an oracle `scrape: string -> Option<Page>`. The loops need nothing of it beyond determinism. `Crawl`, the whole script, requires that for every URL `scrape` gives what `ScrapePage` gives on `fetch` (the predicate `ScrapeOk`), and derives from that that every key is in the domain.
- **`get_urls`.** The method builds the set `main_urls` in a loop. It then turns the set into a list in an unspecified order, as `list(set)` does.
- **Upload.** `upload_to_blob` returns the records it would upload, one `Blob(name, content, metadata)` per page, in place of the Azure calls. Python's `str()` of a list or a bool is a parameter `pyStr`.

The crawl is a method with the script's nested `for` loops. It is proved equal to a pair of fold functions, `TopLoop` and `ChildLoop`. Besides `pages` and the two counters, the fold keeps a ghost log with one event per URL the loops meet: skipped, failed or inserted, together with where the URL was met. The log lets the model state three things: which URLs were scraped, that no key was scraped or stored twice, and what the counters count. main.py keeps no record of failed scrapes, so a URL whose scrape gives `None` is scraped again each time it is met. On the real site that never happens: every URL met is in the domain, which has two dots, so `scrape_page` never gives `None`. Under that assumption no URL at all is scraped twice (`CrawlScrapesOnce`). The invariant `Good` holds of every state the loops pass through.

- `EntryOk`: every entry is what scraping its key gave, and its `parent_page` is correct.
- `EventOk`: every event agrees with `pages`.
- Every key is inserted exactly once.

## Model

| member | source | states |
|---|---|---|
| Utils.FormatUrl | utils.py:24-27 | The input must be non-empty, because `url[0]` is read. The result differs from the input exactly when the input starts with `/`. The result never starts with `/`. |
| Utils.FormatUrlIdempotent | utils.py:8-27 | Applying `format_url` twice gives the same URL as applying it once, because `DOMAIN` starts with `h`. |
| Utils.UrlSetMembers | utils.py:44-53 | A URL is in `main_urls` exactly when some anchor has a non-empty `href` that starts with `/` or contains `DOMAIN`, and whose `format_url` is that URL. |
| Utils.Kept | utils.py:47-52 | An `href` that passes the filter is present and non-empty, and its `format_url` contains `DOMAIN`. |
| Utils.UrlSet | utils.py:42-53 | Every URL in `main_urls` contains `DOMAIN`. |
| Utils.ListOf | utils.py:55 | `list(main_urls)` has no duplicates and has exactly the members of the set. |
| Utils.GetUrls | utils.py:41-55 | The returned list has no duplicates. It holds exactly the `format_url` images of the kept `href`s: missing or empty ones are skipped, and so are those neither root-relative nor containing `DOMAIN`. Every URL in it contains `DOMAIN`. |
| Utils.FileTitle | utils.py:96 | A file title contains neither `/` nor `?`. |
| Utils.LastSegmentIsSuffix | utils.py:96 | `url.split("/")[-1]` is a suffix of the URL without `/`. It is the whole URL or is preceded by `/`. |
| Utils.FileTitleIsSegmentBeforeQuery | utils.py:96 | The file title is the last segment up to, not including, its first `?`. |
| Utils.ScrapePage | utils.py:80-111 | The result satisfies `ScrapeOk`. Let k be the number of dots in the URL. The result is `None` exactly when k < 2. For k >= 3 it is a file record: the title from the URL, empty text, no child pages and `isFile`. For k == 2 it is a page record: the fetched title and text, `isFile` false, and child pages with no duplicates that are exactly the `get_urls` of the document, all in the domain. |
| Utils.ScrapedLinksInDomain | utils.py:91-109 | A URL that `scrape_page` turns into a record has at least two dots, and every link of that record is in the domain. |
| Utils.DomainDots | utils.py:8 | A URL that contains `DOMAIN` has at least two dots, those of `www.njcourts.gov`. |
| Utils.InDomainScrapes | utils.py:91-109 | `scrape_page` never gives `None` for a URL that contains `DOMAIN`. |
| Utils.BlobPrefix | utils.py:118-119 | The blob-name prefix uses only base 64 alphabet characters, and re-padding it gives back `b64encode` of the URL's UTF-8 bytes. |
| Utils.BlobPrefixRoundTrip | utils.py:118-119 | The blob-name prefix uses only base 64 alphabet characters, contains no `=`, and re-padding, base 64 decoding and UTF-8 decoding it gives back the URL. |
| Utils.BlobPrefixInjective | utils.py:118-119 | Different URLs get different prefixes. |
| Utils.FinalMetadata | utils.py:116-137 | The metadata a blob carries has the keys of the page dict, without `text` and with `url`. Every value is a string. `url` is the page's key and `title` is the page's title. |
| Utils.NameSuffix | utils.py:128-139 | What follows the prefix in a blob name is non-empty and starts with a character outside the base 64 alphabet (`_` or `.`). |
| Utils.BlobRecord | utils.py:118-139 | A blob's name is the prefix followed by the suffix. Its content is a copy from the URL exactly when the page is a file, and otherwise the JSON of the page dict with `url` added. Its metadata is `FinalMetadata`. |
| Utils.JsonDocumentKeepsPage | utils.py:116-133 | The JSON document of a page's blob, built from `{"url": ...}` updated with the page dict (`PageFields`), loses nothing: two such documents are equal only for the same URL and the same page. |
| Utils.UploadOne | utils.py:116-141 | The metadata dict is built in place (`update`, `pop("text")`, `str()` of the lists and the flag), and the blob is the record `BlobRecord` describes. A file blob is named prefix + `_` + title and copies the URL. A page blob is named prefix + `.json` and holds the JSON of the dict. The metadata has `url` set to the key, has no `text`, and holds only strings. A page's JSON body still contains the text, because it is serialised before `text` is popped. |
| Utils.BlobNamesDistinct | utils.py:118-139 | Two different URLs never get the same blob name, whatever their pages. |
| Utils.UploadToBlob | utils.py:114-141 | One blob per page, each the record of its URL and page, in some order of the keys, with pairwise different names. |
| Strings.ContainsAt | utils.py:52 | `sub in s` holds exactly when `sub` occurs at some index of `s`. |
| Strings.CountTwoAt | utils.py:91 | A character found at two different indices occurs at least twice, so `url.split(".")` has at least three parts. |
| Strings.ContainsTwoAt | utils.py:52 | A string that contains `sub` has at least two of a character that `sub` has at two indices. |
| Strings.CountChar | utils.py:91 | The number of occurrences is at most the length. It is zero exactly when the character does not occur. |
| Strings.Split | utils.py:91 | `str.split` always gives at least one part. |
| Strings.SplitLength | utils.py:91-101 | `len(url.split("."))` is one more than the number of dots, which is how `scrape_page`'s thresholds turn into dot counts. |
| Strings.SplitPartsAreFree | utils.py:96 | No part of a split contains the separator. |
| Strings.SplitFirst | utils.py:96 | `split("?")[0]` is the prefix up to the first `?`, or the whole string when there is none. |
| Strings.JoinSplit | utils.py:96 | Joining the parts of a split with the separator gives back the string. |
| Strings.SplitLast | utils.py:96 | `split("/")[-1]` is the suffix after the last separator: the whole string when there is none, and otherwise preceded by the separator. |
| Strings.RStrip | utils.py:119 | `rstrip` gives a prefix that does not end with the character, and only that character follows it. |
| Base64.CharIndex | utils.py:118 | The alphabet index of a base 64 character maps back to that character. |
| Base64.Pad | utils.py:119 | Re-padding appends `=` until the length is a multiple of 4, and never more than three. |
| Base64.Encode | utils.py:118 | `b64encode` of n bytes has 4 * ceil(n / 3) characters. |
| Base64.Decode | utils.py:118 | The decoder accepts only texts whose length is a multiple of 4, and gives at most three bytes per four characters. |
| Base64.DecodeEncode | utils.py:118 | Decoding `b64encode` of any bytes gives back those bytes. |
| Base64.StripPadRoundTrip | utils.py:118-119 | Stripping the trailing `=` from `b64encode` output leaves alphabet characters only, and re-padding restores the encoding. |
| Utf8.EncodeChar | utils.py:118 | Every character encodes to between one and four bytes. |
| Utf8.DecodeFirst | utils.py:118 | A successful decode of the first character consumes between one byte and all the bytes. |
| Utf8.Encode | utils.py:118 | `encode("utf-8")` of n characters has between n and 4 * n bytes. |
| Utf8.Decode | utils.py:118 | A successful decode has at most as many characters as there were bytes. |
| Utf8.DecodeFirstEncodeChar | utils.py:118 | Decoding a character's encoding, followed by anything, gives that character and its length. |
| Utf8.DecodeEncode | utils.py:118 | Decoding `url.encode("utf-8")` gives back the URL. |
| Utf8.EncodeInjective | utils.py:118 | Different strings have different UTF-8 encodings. |
| Crawler.CrawlLinks | main.py:31-83 | The nested loop ends in the state `TopLoop` describes. Every entry is its key's scrape, with a correct `parent_page`. Every seed link whose scrape succeeds is a key. `page_process_counter` is at most `len(page_urls)`. |
| Crawler.ChildStep | main.py:55-71 | One pass of the inner loop changes no existing entry and leaves `page_process_counter` alone. It records one event, about the link, met on the top-level page. The event is a skip exactly when the link is already a key, and `skipped_page_counter` grows by one exactly then. |
| Crawler.ChildLoop | main.py:55-80 | The inner loop changes no existing entry, leaves `page_process_counter` alone, and records exactly one event per link. |
| Crawler.TopStep | main.py:34-83 | One pass of the outer loop changes no existing entry. Its first event is about the seed link, at the top level, and is a skip exactly when the seed link is already a key. A failed scrape of an absent seed link stores nothing. `page_process_counter` grows by one exactly when the seed link is stored. An absent seed link whose scrape succeeds is stored with `parent_page` set to the seed page. |
| Crawler.TopLoop | main.py:34-83 | The outer loop changes no existing entry, only appends to the log, and adds at most one to `page_process_counter` per seed link. |
| Crawler.Crawl | main.py:11-83 | The whole script: the seed links are `get_urls` of the content region fetched for `MAIN_URL`, and `scrape` is, for every URL, what `scrape_page` gives (`ScrapeOk`). Every key is in the domain, has at least two dots, and is its scrape. Every key is a seed link or a link of a page stored at the top level. Every seed link is stored. The counter is bounded by the number of seed links. |
| Crawler.CrawlScrapesOnce | main.py:34-71 | When the seed links are in the domain and `scrape` is `scrape_page`, no scrape fails, and no URL is scraped twice: two events that are not skips are about different URLs. |
| Crawler.InsertCountTwice | main.py:52-71 | A URL stored at two positions of the log is counted at least twice, so a key counted once was stored once. |
| Crawler.InsertKeepsGood | main.py:45-52 | Storing an absent, successfully scraped URL keeps the invariant and changes no existing entry. |
| Crawler.RecordKeepsGood | main.py:37-47 | A skip, with its counter increment, or a failed scrape leaves `pages` and the invariant intact. |
| Crawler.ChildStepGood | main.py:55-71 | One pass of the inner loop keeps the invariant and changes no existing entry. |
| Crawler.ChildLoopGood | main.py:55-80 | The inner loop keeps the invariant and changes no existing entry. |
| Crawler.TopStepGood | main.py:34-83 | One pass of the outer loop keeps the invariant and changes no existing entry. |
| Crawler.TopLoopGood | main.py:34-83 | The invariant holds after any number of seed links. |
| Crawler.ChildLoopCounts | main.py:55-80 | The inner loop adds no top-level event, no link of a stored seed page to `CountLinks`, and leaves `page_process_counter` alone. `skipped_page_counter` grows by the number of skips it records. |
| Crawler.TopStepCounts | main.py:34-83 | One seed link adds one top-level event. Each counter grows by what the new events say. The log grows by one plus the number of links of the page stored, if any. |
| Crawler.TopLoopCounts | main.py:34-83 | There is one top-level event per seed link. `skipped_page_counter` counts the skips at both levels. `page_process_counter` counts the seed links that were stored. The log holds exactly one event per seed link plus one per link listed by a stored seed page. |
| Crawler.TopStepKeepsOwnEntry | main.py:51-60 | A stored seed link keeps its own entry, with `parent_page` set to the seed page. When the page lists itself, the self-link is recorded as a skip, met on that page. Every later event of the pass about that URL is such a skip, so the inner loop never scrapes it again. |
| Crawler.NeverOverwritten | main.py:34-83 | An entry present after any number of seed links is still there, unchanged, at the end. |
| Crawler.ChildLoopCovers | main.py:55-71 | After the inner loop, every link of the page whose scrape succeeds is a key. |
| Crawler.TopLoopCovers | main.py:34-71 | Every seed link whose scrape succeeds is a key. So is every link, with a successful scrape, of a page stored at the top level. |
| Crawler.ChildLoopFrom | main.py:55-71 | The inner loop only appends to the log, and every event it appends was met on the top-level page, never at the seed page. |
| Crawler.ChildLoopPrefix | main.py:55 | The log after the first k links is a prefix of the log after all of them. |
| Crawler.ChildLoopEvents | main.py:55-71 | The j-th event of the inner loop is about the j-th link, met on the top-level page. It is a skip exactly when that link was already a key after the first j links. |
| Crawler.CrawlFacts | main.py:34-83 | Every entry is its key's scrape. Top-level entries have `parent_page` equal to the seed page, and second-level entries have the top-level URL that listed them. Every key was stored exactly once. No URL whose scrape failed is a key, so a scrape never ran on a key. Every URL met is a seed link or a link of a top-level page, so third-level links are never scraped. `skipped_page_counter` counts the skips at both levels. `page_process_counter` counts the successful top-level scrapes and is at most `len(page_urls)`. The log holds one event per seed link plus one per link listed by a stored seed page. |
| Crawler.CrawlKeysInDomain | main.py:14-71 | If the seed links and every scraped page's links are in the domain, every key of `pages` is. |

## Left out

- HTTP and HTML parsing: `get_soup` (utils.py:58-77), `find` and `find_all`. They are the oracles `fetch` and `scrape`, deterministic functions of the URL.
- `ScrapePage`: a page with no `<title>` or no `page-content` region is not modelled, because the oracle always returns a title, a text and anchors. In Python these cases raise.
- `ScrapePage`: a `<title>` whose `.string` is `None` (utils.py:104) is not modelled. Python stores `title: None` without raising; the model's title is always a string.
- `ScrapePage`: a failed HTTP request in `requests.get` (utils.py:74) raises and ends the whole script. The oracle `fetch` always returns a document, so this abort is not modelled.
- Azure Blob Storage calls (`get_blob_client`, `upload_blob`, `upload_blob_from_url`, `set_blob_metadata`): replaced by the returned `Blob` records.
- `json.dumps` and Python `str()`:
  - the JSON body is kept as the dict being serialised;
  - `str()` is the parameter `pyStr`, so the exact text of either is not modelled.
- `Utils.UploadToBlob`: the order in which Python iterates the dict is not modelled. The pages are taken in some order, reported as the ghost `order`.
- `parent_page` versus `parent_pages`: main.py stores `parent_page` (main.py:51, main.py:70), while `upload_to_blob` reads `parent_pages` (utils.py:124, utils.py:135). The model keeps the two apart: `StoredPage` carries `parent_pages` as an input field, and the crawl's output is not fed into the upload.
- main.py output plumbing: the networkx graph, including the third-level `sub_url` loop (main.py:73-78), which only adds graph edges. Also the plot, the `print` lines and the JSON dump to `scraped_data_2.json`.
- Lone surrogates: a Dafny `char` is a Unicode scalar value, so strings holding lone surrogates cannot be represented. For such strings Python's `encode("utf-8")` raises.
- upload_metadata_ibm.py and metadata_summary.py are not part of this model. They are environment-driven storage scripts.
- File classification: `scrape_page` counts the dots of the whole URL (utils.py:91-109), and that count is what `Utils.ScrapePage` models. A classification by the extension of the last path segment would differ for some URLs. Example: `https://example.org/forms/jury.pdf` has two dots, so it gets a page record here.
