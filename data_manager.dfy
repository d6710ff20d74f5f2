/**
 * The data manager's integrity pass: for each listed security it dispatches
 * a k-data crawl up to today and, when some tick dates are missing, a tick
 * crawl for exactly those dates.
 */
module DataManager {
  import opened Market
  import TickSpider

  /** The security-list refresh sits behind `if False`: it never runs. */
  const RefreshSecurityList: bool := false

  /** One `process_crawl` call: which spider runs, with which settings. */
  datatype Crawl =
    | SecurityListCrawl
    | KDataCrawl(security: Security, startDate: Date, endDate: Date)
    | TickCrawl(security: Security, tradingDates: set<Date>)

  /**
   * What the pass reads from the quote store: the security list, the latest
   * downloaded k-data date, the trading calendar and the dates whose ticks
   * are already stored.
   */
  datatype Quotes = Quotes(
    securityList: seq<Security>,
    latestDownloadDate: Security -> Date,
    tradingDates: Security -> seq<Date>,
    availableTickDates: Security -> set<Date>)

  // ---------------------------------------------------------------------
  // The tick gap
  // ---------------------------------------------------------------------

  /** The calendar dates on or after the tick start date whose ticks are not stored. */
  function TickGap(calendar: seq<Date>, startTickDate: Date, available: set<Date>): (gap: set<Date>)
    ensures forall d :: d in gap <==> d in calendar && d >= startTickDate && d !in available
  {
    var baseDates := set x | x in calendar;
    var tickDates := set x | x in baseDates && x >= startTickDate;
    tickDates - available
  }

  function SecurityGap(q: Quotes, c: Cutoffs, s: Security): set<Date> {
    TickGap(q.tradingDates(s), c.startTickDate, q.availableTickDates(s))
  }

  /** Storing more tick dates can only shrink the gap. */
  lemma GapAntiMonotone(calendar: seq<Date>, startTickDate: Date, a1: set<Date>, a2: set<Date>)
    requires a1 <= a2
    ensures TickGap(calendar, startTickDate, a2) <= TickGap(calendar, startTickDate, a1)
  {
  }

  /** When every eligible calendar date is stored, nothing is missing. */
  lemma GapEmptyWhenCovered(calendar: seq<Date>, startTickDate: Date, available: set<Date>)
    requires forall d :: d in calendar && d >= startTickDate ==> d in available
    ensures TickGap(calendar, startTickDate, available) == {}
  {
  }

  /** An empty calendar has an empty gap. */
  lemma EmptyCalendarGap(startTickDate: Date, available: set<Date>)
    ensures TickGap([], startTickDate, available) == {}
  {
  }

  /** Storing the ticks of one gap date removes exactly that date: the gap strictly shrinks. */
  lemma GapShrinksByStoredDate(calendar: seq<Date>, startTickDate: Date, available: set<Date>, d: Date)
    requires d in TickGap(calendar, startTickDate, available)
    ensures TickGap(calendar, startTickDate, available + {d})
            == TickGap(calendar, startTickDate, available) - {d}
    ensures |TickGap(calendar, startTickDate, available + {d})|
            == |TickGap(calendar, startTickDate, available)| - 1
  {
  }

  // ---------------------------------------------------------------------
  // The dispatch plan
  // ---------------------------------------------------------------------

  /** The crawls for one security at clock reading `now`. */
  function SecurityCrawls(q: Quotes, c: Cutoffs, s: Security, now: Date): seq<Crawl> {
    var gap := SecurityGap(q, c, s);
    [KDataCrawl(s, q.latestDownloadDate(s), now)] + (if gap != {} then [TickCrawl(s, gap)] else [])
  }

  /** The crawls for `secs` in order; the i-th security sees clock reading `clock(i)`. */
  function SecuritiesPlan(q: Quotes, c: Cutoffs, secs: seq<Security>, clock: nat -> Date): seq<Crawl>
    decreases |secs|
  {
    if secs == [] then []
    else SecuritiesPlan(q, c, secs[..|secs| - 1], clock) + SecurityCrawls(q, c, secs[|secs| - 1], clock(|secs| - 1))
  }

  function Plan(q: Quotes, c: Cutoffs, clock: nat -> Date): seq<Crawl> {
    (if RefreshSecurityList then [SecurityListCrawl] else []) + SecuritiesPlan(q, c, q.securityList, clock)
  }

  /**
   * `check_data_integrity`: the crawls it dispatches, in order. `clock(i)`
   * is what `pd.Timestamp.today()` returns in the i-th iteration.
   */
  method CheckDataIntegrity(q: Quotes, c: Cutoffs, clock: nat -> Date) returns (log: seq<Crawl>)
    ensures log == Plan(q, c, clock)
  {
    log := [];
    if RefreshSecurityList {
      log := log + [SecurityListCrawl];
    }
    var securities := q.securityList;
    for i := 0 to |securities|
      invariant log == (if RefreshSecurityList then [SecurityListCrawl] else []) + SecuritiesPlan(q, c, securities[..i], clock)
    {
      assert securities[..i + 1][..i] == securities[..i];
      var item := securities[i];
      var startDate := q.latestDownloadDate(item);
      var endDate := clock(i);
      log := log + [KDataCrawl(item, startDate, endDate)];

      var baseDates: set<Date> := set x | x in q.tradingDates(item);
      var tickDates: set<Date> := set x | x in baseDates && x >= c.startTickDate;
      var diffDates := tickDates - q.availableTickDates(item);
      assert diffDates == SecurityGap(q, c, item);
      if diffDates != {} {
        log := log + [TickCrawl(item, diffDates)];
      }
    }
    assert securities[..|securities|] == securities;
  }

  // ---------------------------------------------------------------------
  // Properties of the plan
  // ---------------------------------------------------------------------

  /** The k-data crawls of a log, in order. */
  function KDataCrawls(log: seq<Crawl>): seq<Crawl>
    decreases |log|
  {
    if log == [] then []
    else KDataCrawls(log[..|log| - 1]) + (if log[|log| - 1].KDataCrawl? then [log[|log| - 1]] else [])
  }

  lemma {:induction false} KDataCrawlsAppend(a: seq<Crawl>, b: seq<Crawl>)
    ensures KDataCrawls(a + b) == KDataCrawls(a) + KDataCrawls(b)
    decreases |b|
  {
    if b != [] {
      var b0 := b[..|b| - 1];
      assert (a + b)[..|a + b| - 1] == a + b0;
      KDataCrawlsAppend(a, b0);
    } else {
      assert a + b == a;
    }
  }

  /** The k-data crawls of one security's block: just its own. */
  lemma SecurityCrawlsKData(q: Quotes, c: Cutoffs, s: Security, now: Date)
    ensures KDataCrawls(SecurityCrawls(q, c, s, now)) == [KDataCrawl(s, q.latestDownloadDate(s), now)]
  {
    var k := KDataCrawl(s, q.latestDownloadDate(s), now);
    var gap := SecurityGap(q, c, s);
    assert KDataCrawls([k]) == [k];
    if gap != {} {
      assert [TickCrawl(s, gap)][..0] == [];
      assert KDataCrawls([TickCrawl(s, gap)]) == [];
      KDataCrawlsAppend([k], [TickCrawl(s, gap)]);
    } else {
      assert SecurityCrawls(q, c, s, now) == [k];
    }
  }

  /**
   * Each listed security, in list order, gets exactly one k-data crawl, from
   * its latest downloaded date to the clock reading of its iteration.
   */
  lemma {:induction false} KDataCrawlPerSecurity(q: Quotes, c: Cutoffs, secs: seq<Security>, clock: nat -> Date)
    ensures |KDataCrawls(SecuritiesPlan(q, c, secs, clock))| == |secs|
    ensures forall i :: 0 <= i < |secs| ==>
              KDataCrawls(SecuritiesPlan(q, c, secs, clock))[i] == KDataCrawl(secs[i], q.latestDownloadDate(secs[i]), clock(i))
    decreases |secs|
  {
    if secs != [] {
      var n := |secs|;
      var init, last := secs[..n - 1], secs[n - 1];
      KDataCrawlPerSecurity(q, c, init, clock);
      var l0 := SecuritiesPlan(q, c, init, clock);
      KDataCrawlsAppend(l0, SecurityCrawls(q, c, last, clock(n - 1)));
      SecurityCrawlsKData(q, c, last, clock(n - 1));
      var ks := KDataCrawls(SecuritiesPlan(q, c, secs, clock));
      assert ks == KDataCrawls(l0) + [KDataCrawl(last, q.latestDownloadDate(last), clock(n - 1))];
      forall i | 0 <= i < n
        ensures ks[i] == KDataCrawl(secs[i], q.latestDownloadDate(secs[i]), clock(i))
      {
        if i < n - 1 {
          assert secs[i] == init[i];
        }
      }
    }
  }

  /** A tick crawl directly follows the k-data crawl of its security and carries its whole, non-empty gap. */
  ghost predicate TicksFollowTheirKData(q: Quotes, c: Cutoffs, log: seq<Crawl>) {
    forall k :: 0 <= k < |log| && log[k].TickCrawl? ==>
      && k > 0 && log[k - 1].KDataCrawl? && log[k - 1].security == log[k].security
      && log[k].tradingDates == SecurityGap(q, c, log[k].security)
      && log[k].tradingDates != {}
  }

  /** A k-data crawl is directly followed by a tick crawl exactly when its security's gap is non-empty. */
  ghost predicate TickCrawlIffGap(q: Quotes, c: Cutoffs, log: seq<Crawl>) {
    forall k :: 0 <= k < |log| && log[k].KDataCrawl? ==>
      ((k + 1 < |log| && log[k + 1].TickCrawl?) <==> SecurityGap(q, c, log[k].security) != {})
  }

  lemma {:induction false} TickCrawlsMatchGaps(q: Quotes, c: Cutoffs, secs: seq<Security>, clock: nat -> Date)
    ensures TicksFollowTheirKData(q, c, SecuritiesPlan(q, c, secs, clock))
    ensures TickCrawlIffGap(q, c, SecuritiesPlan(q, c, secs, clock))
    ensures forall e :: e in SecuritiesPlan(q, c, secs, clock) ==> e.KDataCrawl? || e.TickCrawl?
    decreases |secs|
  {
    if secs != [] {
      var n := |secs|;
      var init, last := secs[..n - 1], secs[n - 1];
      TickCrawlsMatchGaps(q, c, init, clock);
      var l0 := SecuritiesPlan(q, c, init, clock);
      var block := SecurityCrawls(q, c, last, clock(n - 1));
      var log := l0 + block;
      assert log == SecuritiesPlan(q, c, secs, clock);
      forall k | 0 <= k < |log| && log[k].TickCrawl?
        ensures k > 0 && log[k - 1].KDataCrawl? && log[k - 1].security == log[k].security
        ensures log[k].tradingDates == SecurityGap(q, c, log[k].security) && log[k].tradingDates != {}
      {
        if k < |l0| {
          assert log[k] == l0[k] && log[k - 1] == l0[k - 1];
        } else {
          assert k == |l0| + 1;
        }
      }
      forall k | 0 <= k < |log| && log[k].KDataCrawl?
        ensures (k + 1 < |log| && log[k + 1].TickCrawl?) <==> SecurityGap(q, c, log[k].security) != {}
      {
        if k + 1 < |l0| {
          assert log[k] == l0[k] && log[k + 1] == l0[k + 1];
        } else if k + 1 == |l0| {
          assert log[k] == l0[k];
          assert log[k + 1] == block[0];
        } else {
          assert k == |l0|;
        }
      }
    }
  }

  /**
   * What `CheckDataIntegrity` returns has both properties above: one k-data
   * crawl per listed security in list order, and tick crawls exactly where
   * the gaps are non-empty.
   */
  lemma PlanDispatches(q: Quotes, c: Cutoffs, clock: nat -> Date)
    ensures |KDataCrawls(Plan(q, c, clock))| == |q.securityList|
    ensures forall i :: 0 <= i < |q.securityList| ==>
              KDataCrawls(Plan(q, c, clock))[i]
              == KDataCrawl(q.securityList[i], q.latestDownloadDate(q.securityList[i]), clock(i))
    ensures TicksFollowTheirKData(q, c, Plan(q, c, clock))
    ensures TickCrawlIffGap(q, c, Plan(q, c, clock))
  {
    assert Plan(q, c, clock) == SecuritiesPlan(q, c, q.securityList, clock);
    KDataCrawlPerSecurity(q, c, q.securityList, clock);
    TickCrawlsMatchGaps(q, c, q.securityList, clock);
  }

  /** The security-list refresh is never dispatched. */
  lemma NoSecurityListCrawl(q: Quotes, c: Cutoffs, clock: nat -> Date)
    ensures forall e :: e in Plan(q, c, clock) ==> !e.SecurityListCrawl?
  {
    TickCrawlsMatchGaps(q, c, q.securityList, clock);
    assert Plan(q, c, clock) == SecuritiesPlan(q, c, q.securityList, clock);
  }

  /** A security with an empty calendar gets no tick crawl. */
  lemma EmptyCalendarNoTickCrawl(q: Quotes, c: Cutoffs, secs: seq<Security>, clock: nat -> Date, s: Security)
    requires q.tradingDates(s) == []
    ensures forall e :: e in SecuritiesPlan(q, c, secs, clock) && e.TickCrawl? ==> e.security != s
  {
  }

  /** A dispatched tick crawl carries its security's whole, non-empty gap. */
  lemma TickCrawlCarriesGap(q: Quotes, c: Cutoffs, clock: nat -> Date, s: Security, gap: set<Date>)
    requires TickCrawl(s, gap) in Plan(q, c, clock)
    ensures gap == SecurityGap(q, c, s) && gap != {}
  {
    TickCrawlsMatchGaps(q, c, q.securityList, clock);
    var log := SecuritiesPlan(q, c, q.securityList, clock);
    assert Plan(q, c, clock) == log;
    var k :| 0 <= k < |log| && log[k] == TickCrawl(s, gap);
  }

  /**
   * A dispatched tick crawl, whose date set the spider walks in some order,
   * requests only gap dates on or after both cut-offs, and requests every
   * gap date the spider's own filters let through.
   */
  lemma TickCrawlRequestsStayInGap(q: Quotes, c: Cutoffs, clock: nat -> Date, env: TickSpider.Env,
                                   s: Security, gap: set<Date>, walk: seq<Date>)
    requires TickCrawl(s, gap) in Plan(q, c, clock)
    requires env.cutoffs == c
    requires forall d :: d in walk <==> d in gap
    ensures forall r :: r in TickSpider.StartRequestsSpec(env, TickSpider.SpiderSettings(Some(s), Some(walk))) ==>
              && r.item == s
              && r.tradingDate in q.tradingDates(s)
              && r.tradingDate !in q.availableTickDates(s)
              && r.tradingDate >= c.startTickDate
              && r.tradingDate >= c.availableTickDate
    ensures forall d :: d in gap && TickSpider.Wanted(env, s, d) ==>
              TickSpider.MakeRequest(env, s, d) in TickSpider.StartRequestsSpec(env, TickSpider.SpiderSettings(Some(s), Some(walk)))
  {
    TickCrawlCarriesGap(q, c, clock, s, gap);
    var g :| g in gap;
    assert walk != [];
    TickSpider.RequestsPassFilters(env, s, walk);
    TickSpider.RequestCounts(env, s, walk);
    var rs := TickSpider.TickRequests(env, s, walk);
    forall d | d in gap && TickSpider.Wanted(env, s, d)
      ensures TickSpider.MakeRequest(env, s, d) in rs
    {
      assert d in multiset(TickSpider.RequestDates(rs));
      var j :| 0 <= j < |rs| && TickSpider.RequestDates(rs)[j] == d;
      assert rs[j] in rs;
    }
  }
}
