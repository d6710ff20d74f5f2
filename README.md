# fooltrader tick reconciliation: a Dafny model

This project models two pieces of fooltrader's acquisition engine.

The **data manager's integrity pass** (`check_data_integrity`) walks the
security list in order. For each security it dispatches one k-data crawl,
running from the latest downloaded date to "today". It then computes the
tick gap: the trading dates on or after `START_TICK_DATE` that have no stored
ticks. It dispatches a tick crawl for exactly those dates when the gap is
non-empty.

The **tick spider** picks the dates to request for a security. It skips
dates before `START_TICK_DATE` or `AVAILABLE_TICK_DATE`, and dates whose tick
file exists and is valid. It builds one Sina download URL per remaining date.
It then classifies each response:

- an Excel file is written as it is;
- a page saying "当天没有数据" ("no data for this day") is replaced by ticks
  synthesized from that day's k-bar;
- anything else is logged as an error.

Layout:

- `market.dfy` (module `Market`) holds what both parts share. A trading date
  (`Date`) is the number yyyymmdd, so integer order is date order.
  `DateText` renders it as `YYYY-MM-DD` text. That format is an assumption
  of this model; the source does not fix the format of its dates. The spider
  compares dates after `get_datetime`, while the data manager compares the
  raw values with `>=`.
  `Security` is an exchange and a code. `Cutoffs` holds the two tick
  cut-off settings.
- `tick_spider.dfy` (module `TickSpider`) holds `get_tick_url`,
  `yield_request`, `start_requests` and `download_tick`. The two generator
  loops are methods proved equal to the recursive functions `TickRequests`
  and `StartRequestsSpec`. The properties of those functions are proved as
  lemmas. `download_tick` is a pure classifier returning an `Outcome`.
- `data_manager.dfy` (module `DataManager`) holds the gap (`TickGap`) and the
  dispatch plan. `CheckDataIntegrity` is the loop that appends one `Crawl`
  record per `process_crawl` call; it is proved equal to `Plan`.

These calls become parameters, because their bodies are not part of this model:

- the security list, trading calendar, latest downloaded date and stored tick
  dates (`Quotes` in the data manager; `Env` in the spider);
- the tick path layout, `os.path.isfile` and `is_available_tick` (`Env`);
- the k-bar lookup and `kdata_to_tick` (arguments of `DownloadTick`).

The clock `pd.Timestamp.today()` is read once per loop iteration in the
source. Here it is the parameter `clock`, and `clock(i)` is the reading in
iteration `i`.

## Notes on the source

- The tick crawl gets the gap as an unordered Python set, and the spider walks
  it in whatever order it is given. Nothing sorts the gap dates.
- `download_tick` does not check that a k-bar exists before synthesizing
  ticks from it, and it has no all-or-nothing or append-only write rule.
- The data manager filters only on `START_TICK_DATE`. The spider also
  filters on `AVAILABLE_TICK_DATE`.

## Model

| member | source | states |
|---|---|---|
| `Market.SymbolInjective` | fooltrader/spiders/stock_tick_spider.py:39 | with two-letter exchange codes, two securities with the same symbol (exchange followed by code) are the same security |
| `Market.DateText` | fooltrader/spiders/stock_tick_spider.py:85 | a date's text has the `YYYY-MM-DD` shape: ten characters, dashes at positions 4 and 7, digits elsewhere |
| `Market.ParseDateText` | fooltrader/spiders/stock_tick_spider.py:85 | parsing the text of a date gives the same date back |
| `Market.DateTextInjective` | fooltrader/spiders/stock_tick_spider.py:85 | two different dates never have the same text |
| `TickSpider.TickUrl` | fooltrader/spiders/stock_tick_spider.py:84-85 | the URL is the Sina `downxls.php?date=` prefix, then the date text, then `&symbol=`, then the symbol, each at a fixed position |
| `TickSpider.TickUrlRoundTrip` | fooltrader/spiders/stock_tick_spider.py:84-85 | parsing a tick URL gives back exactly the date and symbol it was built from |
| `TickSpider.TickUrlInjective` | fooltrader/spiders/stock_tick_spider.py:84-85 | different (date, symbol) pairs never share a URL |
| `TickSpider.YieldRequest` | fooltrader/spiders/stock_tick_spider.py:27-45 | the loop with its two `continue` filters yields exactly `TickRequests` over the given dates, or over the calendar when none are given |
| `TickSpider.StartRequests` | fooltrader/spiders/stock_tick_spider.py:47-56 | a configured security is scanned over the configured dates; otherwise every listed security is scanned over its own calendar, in list order |
| `TickSpider.RequestsPassFilters` | fooltrader/spiders/stock_tick_spider.py:31-45 | every request is for an input date on or after both cut-offs and without an existing valid tick file, and carries that date's URL, tick path and security |
| `TickSpider.RequestCounts` | fooltrader/spiders/stock_tick_spider.py:31-45 | each date that passes both filters yields one request per occurrence in the input; other dates yield none |
| `TickSpider.RequestsInInputOrder` | fooltrader/spiders/stock_tick_spider.py:31-45 | the request dates are a subsequence of the input dates, so requests keep the input order |
| `TickSpider.CalendarFallback` | fooltrader/spiders/stock_tick_spider.py:28-29 | with a configured security and an absent or empty date list, a date is requested iff it is in the security's calendar and passes both filters |
| `TickSpider.ConfiguredSecurityOnly` | fooltrader/spiders/stock_tick_spider.py:48-52 | with `security_item` set, every request is for that security and for one of the dates scanned |
| `TickSpider.AllSecuritiesRequests` | fooltrader/spiders/stock_tick_spider.py:53-56 | over a security list, each request is a wanted date of a listed security's own calendar, and each such date is requested |
| `TickSpider.StartRequestsForAllSecurities` | fooltrader/spiders/stock_tick_spider.py:53-56 | without `security_item`, the requests are exactly the wanted calendar dates of every security from `get_security_items` |
| `TickSpider.Contains` | fooltrader/spiders/stock_tick_spider.py:60-61 | the marker test holds exactly when the marker occurs at some position of the decoded body |
| `TickSpider.DownloadTick` | fooltrader/spiders/stock_tick_spider.py:58-73 | a write happens iff the type is Excel or the marker occurs. Excel wins and writes the body verbatim, even if the marker is present. Otherwise the marker page writes `kdata_to_tick` of that date's k-bar. Anything else logs url, type and body and writes nothing. Each response gives at most one write, for its own security and date |
| `DataManager.TickGap` | fooltrader/datamanager/datamanager.py:50-52 | a date is in the gap iff it is a trading date, is on or after `START_TICK_DATE`, and is not a stored tick date |
| `DataManager.GapAntiMonotone` | fooltrader/datamanager/datamanager.py:52 | storing more tick dates can only shrink the gap |
| `DataManager.GapEmptyWhenCovered` | fooltrader/datamanager/datamanager.py:50-52 | if every eligible trading date is stored, the gap is empty |
| `DataManager.EmptyCalendarGap` | fooltrader/datamanager/datamanager.py:50-52 | an empty trading calendar gives an empty gap |
| `DataManager.GapShrinksByStoredDate` | fooltrader/datamanager/datamanager.py:50-52 | storing the ticks of one gap date removes exactly that date, so the gap's size drops by one |
| `DataManager.CheckDataIntegrity` | fooltrader/datamanager/datamanager.py:30-58 | the crawls the pass dispatches are exactly `Plan`: the dead list refresh, then for each listed security its k-data crawl and, if its gap is non-empty, its tick crawl |
| `DataManager.KDataCrawlPerSecurity` | fooltrader/datamanager/datamanager.py:38-46 | the k-data crawls are one per listed security, in list order. The i-th runs from that security's latest downloaded date to the clock reading of iteration i |
| `DataManager.TickCrawlsMatchGaps` | fooltrader/datamanager/datamanager.py:49-57 | every crawl is a k-data or a tick crawl. A tick crawl directly follows its security's k-data crawl and carries exactly that security's non-empty gap. A k-data crawl is followed by a tick crawl iff the gap is non-empty |
| `DataManager.PlanDispatches` | fooltrader/datamanager/datamanager.py:38-57 | the crawls `CheckDataIntegrity` returns: one k-data crawl per listed security in list order, each tick crawl right after its security's k-data crawl with exactly its non-empty gap, and a tick crawl iff the gap is non-empty |
| `DataManager.NoSecurityListCrawl` | fooltrader/datamanager/datamanager.py:33-36 | the security-list refresh is never dispatched |
| `DataManager.EmptyCalendarNoTickCrawl` | fooltrader/datamanager/datamanager.py:50-57 | a security with an empty calendar gets no tick crawl |
| `DataManager.TickCrawlCarriesGap` | fooltrader/datamanager/datamanager.py:54-57 | any dispatched tick crawl carries its security's whole gap, and that gap is non-empty |
| `DataManager.TickCrawlRequestsStayInGap` | fooltrader/datamanager/datamanager.py:56-57 | the spider a tick crawl starts, walking the date set in any order, requests only gap dates on or after both cut-offs. It requests every gap date its own filters let through |

## Left out

- Process plumbing is not modelled: `crawl`, `CrawlerProcess`, the `Process` start and its five-minute `join`, and `from_crawler`/`spider_closed`. Each `process_crawl` call is only a `Crawl` record.
- The spider's rate-limit settings and error middleware are crawl-engine configuration and are not modelled.
- The request's fixed `headers` (`DEFAULT_TICK_HEADER`), its `proxy: None` meta entry and its callback are constants and are not fields of `Request`.
- The bodies of the foreign calls are not part of this model. These are `get_security_list`, `get_security_items`, `get_trading_dates`, `get_latest_download_trading_date`, `get_available_tick_dates`, `get_tick_path_csv`, `os.path.isfile`, `is_available_tick`, `get_kdata_item_with_date`, and `kdata_to_tick`. They are parameters. The call to `sina_tick_to_csv` is the `TickWritten` outcome, which names the security, the date and the content handed to it.
- GB2312 decoding and encoding and the `io.BytesIO` wrapping are not modelled. The body is an already decoded string, and the content handed to `sina_tick_to_csv` is a string. A non-Excel body that does not decode as GB2312 makes `download_tick` raise at its marker test; the model has no such case and classifies every body.
- The crash when the `content-type` header is missing is not modelled. The header is always present, as a string.
- The error log records its url, content type and body, not the formatted message text.
- `Market.Date` stands for the source's date strings as yyyymmdd numbers. It spans every eight-digit number, not only real calendar dates.
- The `logger.info` progress messages of `check_data_integrity` (start and end of each crawl) are logging only and are not modelled.
- TickSpider.StartRequests: the source chooses the single-security branch with Python's truth test `if item:`. The model reads it as "a security is configured". The data manager passes a pandas row from `iterrows()` as `security_item`, and taking the truth value of a pandas Series raises `ValueError`. So, read as written, each tick crawl the pass dispatches would raise in `start_requests` and request nothing. The model does not capture that exception.
- DataManager.TickCrawlRequestsStayInGap: it assumes the spider receives the configured security as a usable item. As the previous line says, with the pandas row actually passed, the source's `if item:` would raise before any request.
- DataManager.TickGap: the raw `x >= settings.START_TICK_DATE` comparison of the data manager is modelled as date order. It matches the source only if the dates are zero-padded strings of one fixed format, or comparable date objects.
