/**
 * The tick spider: which dates it requests for a security, the URL of each
 * request, and what it does with each response.
 */
module TickSpider {
  import opened Market

  // ---------------------------------------------------------------------
  // The request URL
  // ---------------------------------------------------------------------

  const TickUrlPrefix: string := "http://market.finance.sina.com.cn/downxls.php?date="
  const SymbolParameter: string := "&symbol="

  /** The download URL for the ticks of one symbol on one date. */
  function TickUrl(date: Date, code: string): (url: string)
    ensures |url| == |TickUrlPrefix| + 10 + |SymbolParameter| + |code|
    ensures url[..|TickUrlPrefix|] == TickUrlPrefix
    ensures url[|TickUrlPrefix|..|TickUrlPrefix| + 10] == DateText(date)
    ensures url[|TickUrlPrefix| + 10..|TickUrlPrefix| + 10 + |SymbolParameter|] == SymbolParameter
    ensures url[|TickUrlPrefix| + 10 + |SymbolParameter|..] == code
  {
    TickUrlPrefix + DateText(date) + SymbolParameter + code
  }

  /** What a tick URL asks for: a date and a symbol. */
  datatype UrlTarget = UrlTarget(date: Date, symbol: string)

  /** Reads the date and symbol back out of a download URL. */
  function ParseTickUrl(url: string): (r: Option<UrlTarget>)
    ensures r.Some? ==> |url| >= |TickUrlPrefix| + 10 + |SymbolParameter|
                        && url[..|TickUrlPrefix|] == TickUrlPrefix
  {
    var p, q := |TickUrlPrefix|, |TickUrlPrefix| + 10 + |SymbolParameter|;
    if |url| >= q && url[..p] == TickUrlPrefix && url[p + 10..q] == SymbolParameter then
      match ParseDate(url[p..p + 10])
      case Some(d) => Some(UrlTarget(d, url[q..]))
      case None => None
    else None
  }

  /** Every tick URL names exactly the date and symbol it was built from. */
  lemma TickUrlRoundTrip(date: Date, code: string)
    ensures ParseTickUrl(TickUrl(date, code)) == Some(UrlTarget(date, code))
  {
  }

  /** Different (date, symbol) pairs never share a URL. */
  lemma TickUrlInjective(d1: Date, c1: string, d2: Date, c2: string)
    requires TickUrl(d1, c1) == TickUrl(d2, c2)
    ensures d1 == d2 && c1 == c2
  {
    TickUrlRoundTrip(d1, c1);
    TickUrlRoundTrip(d2, c2);
  }

  // ---------------------------------------------------------------------
  // Request selection
  // ---------------------------------------------------------------------

  /**
   * What the spider consults outside itself: the settings, the security
   * list, the trading calendar, the tick file layout and the two checks on
   * a tick file (it exists; it holds usable ticks).
   */
  datatype Env = Env(
    cutoffs: Cutoffs,
    securityItems: seq<Security>,
    tradingDates: Security -> seq<Date>,
    tickPath: (Security, Date) -> string,
    isFile: string -> bool,
    isAvailableTick: string -> bool)

  /** The crawl settings `security_item` and `trading_dates`. */
  datatype SpiderSettings = SpiderSettings(securityItem: Option<Security>, tradingDates: Option<seq<Date>>)

  /** A tick request with the metadata the response handler reads. */
  datatype Request = Request(url: string, path: string, tradingDate: Date, item: Security)

  predicate BeforeCutoffs(c: Cutoffs, d: Date) {
    d < c.startTickDate || d < c.availableTickDate
  }

  /** The tick file of the date exists and holds usable ticks. */
  predicate HasValidTick(env: Env, item: Security, d: Date) {
    var path := env.tickPath(item, d);
    env.isFile(path) && env.isAvailableTick(path)
  }

  /** A date the spider requests: on or after both cut-offs, no valid tick file. */
  predicate Wanted(env: Env, item: Security, d: Date) {
    !BeforeCutoffs(env.cutoffs, d) && !HasValidTick(env, item, d)
  }

  function MakeRequest(env: Env, item: Security, d: Date): Request {
    Request(TickUrl(d, Symbol(item)), env.tickPath(item, d), d, item)
  }

  /** The dates the spider scans: the given ones, or the calendar when the list is absent or empty. */
  function DatesToScan(env: Env, item: Security, tradingDates: Option<seq<Date>>): seq<Date> {
    if tradingDates.None? || tradingDates.value == [] then env.tradingDates(item) else tradingDates.value
  }

  /** One request per wanted date of `ds`, in the order of `ds`. */
  function TickRequests(env: Env, item: Security, ds: seq<Date>): seq<Request>
    decreases |ds|
  {
    if ds == [] then []
    else
      var last := ds[|ds| - 1];
      TickRequests(env, item, ds[..|ds| - 1]) + (if Wanted(env, item, last) then [MakeRequest(env, item, last)] else [])
  }

  /** The requests for all securities, each scanned over its own calendar. */
  function AllSecurityRequests(env: Env, items: seq<Security>): seq<Request>
    decreases |items|
  {
    if items == [] then []
    else
      var last := items[|items| - 1];
      AllSecurityRequests(env, items[..|items| - 1]) + TickRequests(env, last, DatesToScan(env, last, None))
  }

  function StartRequestsSpec(env: Env, conf: SpiderSettings): seq<Request> {
    match conf.securityItem
    case Some(item) => TickRequests(env, item, DatesToScan(env, item, conf.tradingDates))
    case None => AllSecurityRequests(env, env.securityItems)
  }

  /** The requests `yield_request` generates for one security. */
  method YieldRequest(env: Env, item: Security, tradingDates: Option<seq<Date>>) returns (reqs: seq<Request>)
    ensures reqs == TickRequests(env, item, DatesToScan(env, item, tradingDates))
  {
    var dates := if tradingDates.None? || tradingDates.value == [] then env.tradingDates(item) else tradingDates.value;
    reqs := [];
    for i := 0 to |dates|
      invariant reqs == TickRequests(env, item, dates[..i])
    {
      assert dates[..i + 1][..i] == dates[..i];
      var tradingDate := dates[i];
      if tradingDate < env.cutoffs.startTickDate || tradingDate < env.cutoffs.availableTickDate {
        continue;
      }
      var path := env.tickPath(item, tradingDate);
      if env.isFile(path) && env.isAvailableTick(path) {
        continue;
      }
      reqs := reqs + [Request(TickUrl(tradingDate, item.exchange + item.code), path, tradingDate, item)];
    }
    assert dates[..|dates|] == dates;
  }

  /** The requests `start_requests` generates for the crawl settings. */
  method StartRequests(env: Env, conf: SpiderSettings) returns (reqs: seq<Request>)
    ensures reqs == StartRequestsSpec(env, conf)
  {
    if conf.securityItem.Some? {
      reqs := YieldRequest(env, conf.securityItem.value, conf.tradingDates);
    } else {
      var items := env.securityItems;
      reqs := [];
      for i := 0 to |items|
        invariant reqs == AllSecurityRequests(env, items[..i])
      {
        assert items[..i + 1][..i] == items[..i];
        var more := YieldRequest(env, items[i], None);
        reqs := reqs + more;
      }
      assert items[..|items|] == items;
    }
  }

  // ---------------------------------------------------------------------
  // Properties of the selected requests
  // ---------------------------------------------------------------------

  function RequestDates(rs: seq<Request>): (ds: seq<Date>)
    ensures |ds| == |rs| && forall k :: 0 <= k < |rs| ==> ds[k] == rs[k].tradingDate
  {
    seq(|rs|, k requires 0 <= k < |rs| => rs[k].tradingDate)
  }

  /** `a` is `b` with some elements deleted, the rest kept in order. */
  ghost predicate IsSubsequence<T>(a: seq<T>, b: seq<T>)
    decreases |b|
  {
    if b == [] then a == []
    else
      (a != [] && a[|a| - 1] == b[|b| - 1] && IsSubsequence(a[..|a| - 1], b[..|b| - 1]))
      || IsSubsequence(a, b[..|b| - 1])
  }

  /**
   * Every request is for the security scanned, for a date taken from the
   * input, on or after both cut-offs, without a valid tick file, and carries
   * the URL and tick path of that date.
   */
  lemma {:induction false} RequestsPassFilters(env: Env, item: Security, ds: seq<Date>)
    ensures forall r :: r in TickRequests(env, item, ds) ==>
              && r == MakeRequest(env, item, r.tradingDate)
              && r.tradingDate in ds
              && r.tradingDate >= env.cutoffs.startTickDate
              && r.tradingDate >= env.cutoffs.availableTickDate
              && !(env.isFile(r.path) && env.isAvailableTick(r.path))
    decreases |ds|
  {
    if ds != [] {
      RequestsPassFilters(env, item, ds[..|ds| - 1]);
    }
  }

  /** Each wanted date yields exactly one request per occurrence in the input; other dates none. */
  lemma {:induction false} RequestCounts(env: Env, item: Security, ds: seq<Date>)
    ensures forall d :: multiset(RequestDates(TickRequests(env, item, ds)))[d]
                        == if Wanted(env, item, d) then multiset(ds)[d] else 0
    decreases |ds|
  {
    if ds != [] {
      var init, last := ds[..|ds| - 1], ds[|ds| - 1];
      RequestCounts(env, item, init);
      assert ds == init + [last];
      var extra := if Wanted(env, item, last) then [MakeRequest(env, item, last)] else [];
      assert RequestDates(TickRequests(env, item, ds))
             == RequestDates(TickRequests(env, item, init)) + RequestDates(extra);
    }
  }

  /** The requests follow the order of the input dates. */
  lemma {:induction false} RequestsInInputOrder(env: Env, item: Security, ds: seq<Date>)
    ensures IsSubsequence(RequestDates(TickRequests(env, item, ds)), ds)
    decreases |ds|
  {
    if ds != [] {
      var init, last := ds[..|ds| - 1], ds[|ds| - 1];
      RequestsInInputOrder(env, item, init);
      var a := RequestDates(TickRequests(env, item, ds));
      var a0 := RequestDates(TickRequests(env, item, init));
      if Wanted(env, item, last) {
        assert a[..|a| - 1] == a0;
      } else {
        assert a == a0;
      }
    }
  }

  /**
   * With a configured security and an absent or empty date list, the spider
   * requests exactly the wanted dates of that security's whole calendar.
   */
  lemma CalendarFallback(env: Env, item: Security, tradingDates: Option<seq<Date>>)
    requires tradingDates.None? || tradingDates == Some([])
    ensures forall d :: d in RequestDates(StartRequestsSpec(env, SpiderSettings(Some(item), tradingDates)))
                        <==> d in env.tradingDates(item) && Wanted(env, item, d)
  {
    var ds := env.tradingDates(item);
    RequestCounts(env, item, ds);
    var rs := RequestDates(TickRequests(env, item, ds));
    forall d ensures d in rs <==> d in ds && Wanted(env, item, d) {
      assert d in rs <==> d in multiset(rs);
      assert d in ds <==> d in multiset(ds);
    }
  }

  /** With a configured security, only it is requested, over the configured dates. */
  lemma ConfiguredSecurityOnly(env: Env, conf: SpiderSettings)
    requires conf.securityItem.Some?
    ensures forall r :: r in StartRequestsSpec(env, conf) ==>
              r.item == conf.securityItem.value
              && r.tradingDate in DatesToScan(env, r.item, conf.tradingDates)
  {
    RequestsPassFilters(env, conf.securityItem.value, DatesToScan(env, conf.securityItem.value, conf.tradingDates));
  }

  /**
   * Without a configured security, the requests are exactly the wanted dates
   * of every listed security's own calendar.
   */
  lemma {:induction false} AllSecuritiesRequests(env: Env, items: seq<Security>)
    ensures forall r :: r in AllSecurityRequests(env, items) ==>
              r.item in items && r.tradingDate in env.tradingDates(r.item)
              && Wanted(env, r.item, r.tradingDate) && r == MakeRequest(env, r.item, r.tradingDate)
    ensures forall item, d :: item in items && d in env.tradingDates(item) && Wanted(env, item, d) ==>
              MakeRequest(env, item, d) in AllSecurityRequests(env, items)
    decreases |items|
  {
    if items != [] {
      var init, last := items[..|items| - 1], items[|items| - 1];
      AllSecuritiesRequests(env, init);
      RequestsPassFilters(env, last, env.tradingDates(last));
      RequestCounts(env, last, env.tradingDates(last));
      forall item, d | item in items && d in env.tradingDates(item) && Wanted(env, item, d)
        ensures MakeRequest(env, item, d) in AllSecurityRequests(env, items)
      {
        if item !in init {
          assert item == last;
          var rs := TickRequests(env, last, env.tradingDates(last));
          assert d in multiset(RequestDates(rs));
          var k :| 0 <= k < |rs| && RequestDates(rs)[k] == d;
          assert rs[k] in rs;
        }
      }
    }
  }

  lemma StartRequestsForAllSecurities(env: Env, conf: SpiderSettings)
    requires conf.securityItem.None?
    ensures forall r :: r in StartRequestsSpec(env, conf) ==>
              r.item in env.securityItems && r.tradingDate in env.tradingDates(r.item)
              && Wanted(env, r.item, r.tradingDate)
    ensures forall item, d :: item in env.securityItems && d in env.tradingDates(item) && Wanted(env, item, d) ==>
              MakeRequest(env, item, d) in StartRequestsSpec(env, conf)
  {
    AllSecuritiesRequests(env, env.securityItems);
  }

  // ---------------------------------------------------------------------
  // Response classification
  // ---------------------------------------------------------------------

  const ExcelContentType: string := "application/vnd.ms-excel"
  /** The page text meaning "no data for this day". */
  const NoDataMarker: string := "当天没有数据"

  /** A response: its URL, content-type header, decoded body and request metadata. */
  datatype Response = Response(url: string, contentType: string, body: string, tradingDate: Date, item: Security)

  /** What the handler does: hand content to the tick CSV writer, or log an error. */
  datatype Outcome =
    | TickWritten(item: Security, tradingDate: Date, content: string)
    | ErrorLogged(url: string, contentType: string, body: string)

  ghost predicate OccursAt(s: string, m: string, i: int) {
    0 <= i && i + |m| <= |s| && s[i..i + |m|] == m
  }

  ghost predicate OccursIn(m: string, s: string) {
    exists i :: OccursAt(s, m, i)
  }

  /** Substring test: `m in s`. */
  function Contains(s: string, m: string): (b: bool)
    ensures b <==> OccursIn(m, s)
    decreases |s|
  {
    if |m| > |s| then false
    else if s[..|m|] == m then assert OccursAt(s, m, 0); true
    else
      var b := Contains(s[1..], m);
      ShiftOccurrence(s, m);
      b
  }

  lemma ShiftOccurrence(s: string, m: string)
    requires |m| <= |s| && s[..|m|] != m
    ensures OccursIn(m, s) <==> OccursIn(m, s[1..])
  {
    if OccursIn(m, s) {
      var i :| OccursAt(s, m, i);
      assert i != 0;
      assert s[1..][i - 1..i - 1 + |m|] == s[i..i + |m|];
      assert OccursAt(s[1..], m, i - 1);
    }
    if OccursIn(m, s[1..]) {
      var i :| OccursAt(s[1..], m, i);
      assert s[1..][i..i + |m|] == s[i + 1..i + 1 + |m|];
      assert OccursAt(s, m, i + 1);
    }
  }

  /**
   * `download_tick`: an Excel response is written as it is; otherwise a page
   * carrying the no-data marker is replaced by ticks made from that date's
   * k-bar; anything else is logged and nothing is written.
   */
  function DownloadTick<K>(resp: Response, kdataItemWithDate: (Security, Date) -> K,
                           kdataToTick: (Security, K) -> string): (o: Outcome)
    ensures o.TickWritten? <==> resp.contentType == ExcelContentType || OccursIn(NoDataMarker, resp.body)
    ensures o.TickWritten? ==> o.item == resp.item && o.tradingDate == resp.tradingDate
    ensures resp.contentType == ExcelContentType ==> o == TickWritten(resp.item, resp.tradingDate, resp.body)
    ensures resp.contentType != ExcelContentType && OccursIn(NoDataMarker, resp.body) ==>
              o == TickWritten(resp.item, resp.tradingDate,
                               kdataToTick(resp.item, kdataItemWithDate(resp.item, resp.tradingDate)))
    ensures o.ErrorLogged? ==> o == ErrorLogged(resp.url, resp.contentType, resp.body)
  {
    if resp.contentType == ExcelContentType || Contains(resp.body, NoDataMarker) then
      var content :=
        if resp.contentType == ExcelContentType then resp.body
        else kdataToTick(resp.item, kdataItemWithDate(resp.item, resp.tradingDate));
      TickWritten(resp.item, resp.tradingDate, content)
    else
      ErrorLogged(resp.url, resp.contentType, resp.body)
  }
}
