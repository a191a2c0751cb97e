/** Paging end to end: what a listing request answers, and what a client sees that follows the
    `next` links. */
module Paging {
  import opened Wrappers
  import opened Model
  import opened Documents
  import opened Records
  import opened Ordering
  import opened DataStores
  import opened HttpUtils

  /** One more than the largest skip count that the driver's 32 bits hold. */
  const SKIP_LIMIT := 0x8000_0000

  const STATUS_NAME := "status"
  const DEVICE_ID_NAME := "device_id"
  const DEV_STATUSES := [PENDING, REJECTED, ACCEPTED, PREAUTHORIZED]

  // ----- machine arithmetic ------------------------------------------------------------------

  function UInt64(n: int): nat {
    n % 0x1_0000_0000_0000_0000
  }

  /** Conversion of an unsigned 64-bit integer to a signed one. */
  function Int64(n: nat): int
    requires n <= MAX_UINT64
  {
    if n < 0x8000_0000_0000_0000 then n else n - 0x1_0000_0000_0000_0000
  }

  function SkipOf(page: nat, perPage: nat): int {
    Int64(UInt64(UInt64(page - 1) * perPage))
  }

  function LimitOf(perPage: nat): int {
    Int64(UInt64(perPage + 1))
  }

  /** For every page and page size that parses, the handler's 64-bit arithmetic is exact and the
      limit never falls into the driver's special case for one. */
  lemma ArithmeticIsExact(page: nat, perPage: nat)
    requires 1 <= page <= MAX_UINT32 && 1 <= perPage <= PER_PAGE_MAX
    ensures SkipOf(page, perPage) == (page - 1) * perPage && LimitOf(perPage) == perPage + 1 >= 2
  {
    Bounded(page - 1, perPage);
  }

  lemma Bounded(a: nat, b: nat)
    requires a <= MAX_UINT32 && b <= PER_PAGE_MAX
    ensures 0 <= a * b <= MAX_UINT32 * PER_PAGE_MAX
  {
    assert a * b + a * (PER_PAGE_MAX - b) == a * PER_PAGE_MAX;
    assert a * (PER_PAGE_MAX - b) >= 0 && a * b >= 0;
  }

  /** The driver keeps only 32 bits of the skip count: it is exact exactly below 2^31. */
  lemma SkipIsExactIff(skip: nat)
    ensures Int32(skip) == skip <==> skip < SKIP_LIMIT
  {
  }

  // ----- one page ----------------------------------------------------------------------------

  /** What a listing request asks for once its parameters are parsed. */
  datatype Ask = Ask(page: nat, perPage: nat, filter: Filter)

  ghost predicate GoodAsk(k: Ask) {
    1 <= k.page <= MAX_UINT32 && 1 <= k.perPage <= PER_PAGE_MAX
  }

  /** The parameter gates of the listing handler; absent when it answers 400. */
  function AskOf(q: Query): (k: Option<Ask>)
    ensures k.Some? ==> GoodAsk(k.value)
  {
    var paging := ParsePagination(q);
    if paging.Rejected? then None
    else
      var status := ParseQueryParmStr(q, STATUS_NAME, false, Some(DEV_STATUSES));
      if status.Rejected? then None
      else
        var deviceId := ParseQueryParmStr(q, DEVICE_ID_NAME, false, None);
        if deviceId.Rejected? then None
        else Some(Ask(paging.value.0, paging.value.1, Filter(deviceId.value, status.value)))
  }

  /** A listing request is understood exactly when page and page size are absent or within bounds and
      the status is absent or known; then it asks for what the query says. */
  lemma AskOfIs(q: Query)
    ensures var k := AskOf(q);
            if InBounds(Get(q, "page"), 0xFFFF_FFFF) && InBounds(Get(q, "per_page"), 500) && (Get(q, "status") == "" || KnownStatus(Get(q, "status")))
            then k == Some(Ask(if Get(q, "page") == "" then 1 else DigitsValue(Get(q, "page")),
                               if Get(q, "per_page") == "" then 20 else DigitsValue(Get(q, "per_page")),
                               Filter(Get(q, "device_id"), Get(q, "status"))))
            else k == None
  {
  }

  lemma FilterIsOfQuery(q: Query, k: Ask)
    requires AskOf(q) == Some(k)
    ensures k.filter == Filter(Get(q, "device_id"), Get(q, "status"))
  {
  }

  /** Matching records before a page. */
  function Earlier(page: nat, perPage: nat): nat {
    if page <= 1 then 0 else Earlier(page - 1, perPage) + perPage
  }

  lemma {:induction false} EarlierIsProduct(page: nat, perPage: nat)
    requires page >= 1
    ensures Earlier(page, perPage) == (page - 1) * perPage
  {
    if page > 1 {
      EarlierIsProduct(page - 1, perPage);
    }
  }

  /** The rows read from a listing for a page, one more than are shown; the driver has 32 bits for
      the skip. */
  function RowsRead(all: seq<DeviceAuth>, page: nat, perPage: nat): seq<DeviceAuth>
    requires 1 <= page <= MAX_UINT32 && 1 <= perPage <= PER_PAGE_MAX && 0 <= Int32(SkipOf(page, perPage))
  {
    Window(all, Int32(SkipOf(page, perPage)), perPage + 1)
  }

  function Shown(read: seq<DeviceAuth>, perPage: nat): seq<DeviceAuth> {
    if |read| > perPage then read[..perPage] else read
  }

  lemma {:induction false} EarlierBounds(page: nat, perPage: nat)
    requires perPage >= 1
    ensures page <= Earlier(page, perPage) + 1
  {
    if page > 1 {
      EarlierBounds(page - 1, perPage);
    }
  }

  /** The extra row is there exactly when the list goes on after this page, and what is shown is
      the list's next stretch either way. */
  lemma LookAhead(all: seq<DeviceAuth>, skip: nat, n: nat)
    requires n >= 1
    ensures var read := Window(all, skip, n + 1);
            && (|read| > n <==> skip + n < |all|)
            && Shown(read, n) == if |all| <= skip then [] else if |all| <= skip + n then all[skip..] else all[skip..skip + n]
  {
    var read := Window(all, skip, n + 1);
    if skip + n < |all| {
      assert read[..n] == all[skip..skip + n];
    }
  }

  lemma AskFromParts(q: Query, k: Ask, q': Query, page: nat)
    requires AskOf(q) == Some(k) && 1 <= page <= MAX_UINT32 && ParsePagination(q') == Accepted((page, k.perPage))
    requires Get(q', STATUS_NAME) == Get(q, STATUS_NAME) && Get(q', DEVICE_ID_NAME) == Get(q, DEVICE_ID_NAME)
    ensures AskOf(q') == Some(k.(page := page))
  {
  }

  /** A link's query asks for its page of the same listing, and for nothing if the page does not fit. */
  lemma LinkAsksForItsPage(q: Query, k: Ask, page: nat)
    requires AskOf(q) == Some(k) && 1 <= page
    ensures AskOf(PageQuery(q, page, k.perPage)) == if page <= MAX_UINT32 then Some(k.(page := page)) else None
  {
    LinkRoundTrip(q, page, k.perPage);
    NamesDiffer();
    if page <= MAX_UINT32 {
      AskFromParts(q, k, PageQuery(q, page, k.perPage), page);
    }
  }

  /** What a link is to be: it names the end of the path, asks for its page of the same listing, and
      keeps every other value of the query. */
  ghost predicate AsksFor(path: string, q: Query, k: Ask, l: Link, page: nat) {
    && EndsPath(path, l.resource)
    && AskOf(l.query) == (if page <= 0xFFFF_FFFF then Some(k.(page := page)) else None)
    && l.query - {"page", "per_page"} == q - {"page", "per_page"}
  }

  /** A link is told apart by its relation and asks for the page that this names. */
  ghost predicate LinkBelongs(path: string, q: Query, k: Ask, l: Link) {
    || (l.rel == "next" && AsksFor(path, q, k, l, k.page + 1))
    || (l.rel == "prev" && k.page > 1 && AsksFor(path, q, k, l, k.page - 1))
    || (l.rel == "first" && AsksFor(path, q, k, l, 1))
  }

  /** The links that belong to a page. */
  ghost predicate LinksBelong(path: string, q: Query, k: Ask, more: bool, links: seq<Link>) {
    && ((exists l :: l in links && l.rel == "next") <==> more)
    && ((exists l :: l in links && l.rel == "prev") <==> k.page > 1)
    && (exists l :: l in links && l.rel == "first")
    && (forall l :: l in links ==> LinkBelongs(path, q, k, l))
  }

  lemma PageLinkAsks(path: string, q: Query, k: Ask, page: nat, rel: string)
    requires AskOf(q) == Some(k) && 1 <= page
    ensures AsksFor(path, q, k, PageLink(path, q, page, k.perPage, rel), page)
  {
    LastSegmentEndsThePath(path);
    LinkAsksForItsPage(q, k, page);
  }

  lemma PageLinkBelongs(path: string, q: Query, k: Ask, more: bool, l: Link)
    requires AskOf(q) == Some(k) && l in PageLinks(path, q, k.page, k.perPage, more)
    ensures LinkBelongs(path, q, k, l)
  {
    if k.page > 1 && l == PageLink(path, q, k.page - 1, k.perPage, LINK_PREV) {
      PageLinkAsks(path, q, k, k.page - 1, LINK_PREV);
    } else if l == PageLink(path, q, k.page + 1, k.perPage, LINK_NEXT) {
      PageLinkAsks(path, q, k, k.page + 1, LINK_NEXT);
    } else {
      assert l == PageLink(path, q, 1, k.perPage, LINK_FIRST);
      PageLinkAsks(path, q, k, 1, LINK_FIRST);
    }
  }

  /** The links as made belong to their page. */
  lemma PageLinksBelong(path: string, q: Query, k: Ask, more: bool)
    requires AskOf(q) == Some(k)
    ensures LinksBelong(path, q, k, more, PageLinks(path, q, k.page, k.perPage, more))
  {
    LinksByRelation(path, q, k.page, k.perPage, more);
    forall l | l in PageLinks(path, q, k.page, k.perPage, more) ensures LinkBelongs(path, q, k, l) {
      PageLinkBelongs(path, q, k, more, l);
    }
  }

  lemma NamesDiffer()
    ensures STATUS_NAME != PAGE_NAME && STATUS_NAME != PER_PAGE_NAME
    ensures DEVICE_ID_NAME != PAGE_NAME && DEVICE_ID_NAME != PER_PAGE_NAME
  {
    assert STATUS_NAME[0] == 's' && PAGE_NAME[0] == 'p' && DEVICE_ID_NAME[0] == 'd' && PER_PAGE_NAME[0] == 'p';
  }

  /** A page as answered: its rows and whether there is a next page; none when the query fails. */
  datatype PageAnswer = NoPage | Page(shown: seq<DeviceAuth>, more: bool)

  function AnswerOf(all: seq<DeviceAuth>, page: nat, perPage: nat): PageAnswer
    requires 1 <= page <= MAX_UINT32 && 1 <= perPage <= PER_PAGE_MAX
  {
    if Int32(SkipOf(page, perPage)) < 0 then NoPage
    else
      var read := RowsRead(all, page, perPage);
      Page(Shown(read, perPage), |read| > perPage)
  }

  function Stretch(all: seq<DeviceAuth>, skip: nat, n: nat): seq<DeviceAuth> {
    if |all| <= skip then [] else if |all| <= skip + n then all[skip..] else all[skip..skip + n]
  }

  /** Below 2^31 skipped rows, a page is its stretch of the listing, and there is a next one exactly
      when the listing goes on. */
  lemma PageIsItsStretch(all: seq<DeviceAuth>, page: nat, perPage: nat)
    requires 1 <= page <= MAX_UINT32 && 1 <= perPage <= PER_PAGE_MAX && Earlier(page, perPage) < SKIP_LIMIT
    ensures var skip := Earlier(page, perPage);
            AnswerOf(all, page, perPage) == Page(Stretch(all, skip, perPage), skip + perPage < |all|)
  {
    ArithmeticIsExact(page, perPage);
    EarlierIsProduct(page, perPage);
    SkipIsExactIff(Earlier(page, perPage));
    LookAhead(all, Earlier(page, perPage), perPage);
  }

  /** Exactly when a page shows its stretch of the listing and rightly tells whether it goes on: the
      driver keeps the skip count, or wraps it to one that is past the end as well. */
  lemma PageIsItsStretchIff(all: seq<DeviceAuth>, page: nat, perPage: nat)
    requires 1 <= page <= MAX_UINT32 && 1 <= perPage <= PER_PAGE_MAX && Increasing(all)
    ensures var skip := Earlier(page, perPage);
            AnswerOf(all, page, perPage) == Page(Stretch(all, skip, perPage), skip + perPage < |all|) <==>
            skip < SKIP_LIMIT || (0 <= Int32(skip) && |all| <= Int32(skip))
  {
    var skip := Earlier(page, perPage);
    if skip < SKIP_LIMIT {
      PageIsItsStretch(all, page, perPage);
    } else {
      ArithmeticIsExact(page, perPage);
      EarlierIsProduct(page, perPage);
      if 0 <= Int32(skip) {
        WrapsDown(skip);
        LookAhead(all, Int32(skip), perPage);
        assert AnswerOf(all, page, perPage) == Page(Stretch(all, Int32(skip), perPage), Int32(skip) + perPage < |all|);
        StretchesDiffer(all, Int32(skip), skip, perPage);
      }
    }
  }

  lemma WrapsDown(skip: nat)
    requires SKIP_LIMIT <= skip && 0 <= Int32(skip)
    ensures Int32(skip) < skip
  {
  }

  /** Stretches of a list without repetitions differ unless both are past its end. */
  lemma StretchesDiffer(all: seq<DeviceAuth>, low: nat, high: nat, n: nat)
    requires Increasing(all) && low < high && n >= 1
    ensures Stretch(all, low, n) == Stretch(all, high, n) <==> |all| <= low
  {
    if low < |all| {
      assert Stretch(all, low, n)[0] == all[low];
      if high < |all| {
        assert Stretch(all, high, n)[0] == all[high];
        LessTotal(all[low].id, all[high].id);
      }
    }
  }

  // ----- following the links -----------------------------------------------------------------

  /** What the listing handler writes when the store does not fail: 400, 500, or rows and links. */
  datatype Answer = Refused | Failed | Listed(rows: seq<DeviceAuth>, links: seq<Link>)

  function Answered(docs: seq<Doc>, path: string, q: Query): Answer {
    var k := AskOf(q);
    if k.None? then Refused
    else
      var page := AnswerOf(Listing(docs, k.value.filter), k.value.page, k.value.perPage);
      if page.NoPage? then Failed
      else Listed(page.shown, PageLinks(path, q, k.value.page, k.value.perPage, page.more))
  }

  /** The query of the first link to a next page. */
  function NextOf(links: seq<Link>): Option<Query> {
    if links == [] then None
    else if links[0].rel == "next" then Some(links[0].query)
    else NextOf(links[1..])
  }

  lemma NextOfFirst(l: Link, rest: seq<Link>)
    ensures NextOf([l] + rest) == if l.rel == "next" then Some(l.query) else NextOf(rest)
  {
    assert ([l] + rest)[1..] == rest;
  }

  lemma NextOfPageLinks(path: string, q: Query, page: nat, perPage: nat, more: bool)
    requires 1 <= page
    ensures NextOf(PageLinks(path, q, page, perPage, more)) == if more then Some(PageQuery(q, page + 1, perPage)) else None
  {
    var next, first := PageLink(path, q, page + 1, perPage, LINK_NEXT), PageLink(path, q, 1, perPage, LINK_FIRST);
    assert "prev"[0] == 'p' && "next"[0] == 'n' && "first"[0] == 'f';
    var rest := (if more then [next] else []) + [first];
    NextOfFirst(first, []);
    NextOfFirst(next, [first]);
    assert [first] + [] == [first] && (!more ==> rest == [first]);
    if page > 1 {
      var prev := PageLink(path, q, page - 1, perPage, LINK_PREV);
      NextOfFirst(prev, rest);
      assert PageLinks(path, q, page, perPage, more) == [prev] + rest;
    } else {
      assert PageLinks(path, q, page, perPage, more) == rest;
    }
  }

  /** What a client has when it stops: the rows it collected, whether it stopped on an answer
      without a `next` link, and how many requests it sent. */
  datatype Followed = Followed(rows: seq<DeviceAuth>, ended: bool, sent: nat)

  /** A client that sends query q, then the query of each answer's `next` link until there is none,
      giving up after `requests` requests or on an answer that is not a page. */
  ghost function Follow(service: Query -> Answer, q: Query, requests: nat): Followed
    decreases requests
  {
    if requests == 0 then Followed([], false, 0)
    else
      match service(q)
      case Listed(rows, links) =>
        var next := NextOf(links);
        if next.Some? then
          var rest := Follow(service, next.value, requests - 1);
          Followed(rows + rest.rows, rest.ended, rest.sent + 1)
        else Followed(rows, true, 1)
      case _ => Followed([], false, 1)
  }

  /** An answer that shows a stretch and links to the next page exactly if there is more. */
  ghost predicate ShowsStretch(ask: Query -> Option<Ask>, answer: Answer, k: Ask, rows: seq<DeviceAuth>, more: bool) {
    && answer.Listed? && answer.rows == rows
    && var next := NextOf(answer.links);
       && (next.Some? <==> more)
       && (next.Some? && k.page < MAX_UINT32 ==> ask(next.value) == Some(k.(page := k.page + 1)))
  }

  /** A page within the driver's reach is its stretch of a list; the first one beyond fails. */
  ghost predicate PageOf(ask: Query -> Option<Ask>, service: Query -> Answer, q: Query, k: Ask, all: seq<DeviceAuth>) {
    var skip := Earlier(k.page, k.perPage);
    ask(q) == Some(k) ==>
      && GoodAsk(k)
      && (skip < SKIP_LIMIT ==> ShowsStretch(ask, service(q), k, Stretch(all, skip, k.perPage), skip + k.perPage < |all|))
      && (SKIP_LIMIT <= skip < SKIP_LIMIT + PER_PAGE_MAX ==> !service(q).Listed?)
  }

  /** Pages of a filter are stretches of one list. */
  ghost predicate PagesOf(ask: Query -> Option<Ask>, service: Query -> Answer, filter: Filter, all: seq<DeviceAuth>) {
    forall q: Query, k: Ask :: k.filter == filter ==> PageOf(ask, service, q, k, all)
  }

  lemma AnsweredShowsStretch(docs: seq<Doc>, path: string, q: Query, k: Ask)
    requires AskOf(q) == Some(k) && Earlier(k.page, k.perPage) < SKIP_LIMIT
    ensures var all, skip := Listing(docs, k.filter), Earlier(k.page, k.perPage);
            ShowsStretch(AskOf, Answered(docs, path, q), k, Stretch(all, skip, k.perPage), skip + k.perPage < |all|)
  {
    var all, skip := Listing(docs, k.filter), Earlier(k.page, k.perPage);
    PageIsItsStretch(all, k.page, k.perPage);
    NextOfPageLinks(path, q, k.page, k.perPage, skip + k.perPage < |all|);
    LinkAsksForItsPage(q, k, k.page + 1);
  }

  lemma BeyondIsNoPage(all: seq<DeviceAuth>, page: nat, perPage: nat)
    requires 1 <= page <= MAX_UINT32 && 1 <= perPage <= PER_PAGE_MAX
    requires SKIP_LIMIT <= Earlier(page, perPage) < SKIP_LIMIT + PER_PAGE_MAX
    ensures AnswerOf(all, page, perPage) == NoPage
  {
    ArithmeticIsExact(page, perPage);
    EarlierIsProduct(page, perPage);
  }

  lemma AnsweredFailsBeyond(docs: seq<Doc>, path: string, q: Query, k: Ask)
    requires AskOf(q) == Some(k) && SKIP_LIMIT <= Earlier(k.page, k.perPage) < SKIP_LIMIT + PER_PAGE_MAX
    ensures Answered(docs, path, q) == Failed
  {
    BeyondIsNoPage(Listing(docs, k.filter), k.page, k.perPage);
  }

  lemma AnsweredPages(docs: seq<Doc>, path: string, filter: Filter)
    ensures PagesOf(AskOf, Handling(docs, path), filter, Listing(docs, filter))
  {
    forall q: Query, k: Ask | k.filter == filter ensures PageOf(AskOf, Handling(docs, path), q, k, Listing(docs, filter)) {
      var skip := Earlier(k.page, k.perPage);
      if AskOf(q) == Some(k) && skip < SKIP_LIMIT {
        AnsweredShowsStretch(docs, path, q, k);
      } else if AskOf(q) == Some(k) && skip < SKIP_LIMIT + PER_PAGE_MAX {
        AnsweredFailsBeyond(docs, path, q, k);
      }
    }
  }

  /** The listing handler over an unchanging collection. */
  function Handling(docs: seq<Doc>, path: string): Query -> Answer {
    q => Answered(docs, path, q)
  }

  /** A list cut into at most `requests` stretches from a place on, as far as the driver reaches. */
  ghost function Cut(all: seq<DeviceAuth>, skip: nat, n: nat, requests: nat): Followed
    decreases requests
  {
    if requests == 0 then Followed([], false, 0)
    else if skip >= SKIP_LIMIT then Followed([], false, 1)
    else if skip + n < |all| then
      var rest := Cut(all, skip + n, n, requests - 1);
      Followed(Stretch(all, skip, n) + rest.rows, rest.ended, rest.sent + 1)
    else Followed(Stretch(all, skip, n), true, 1)
  }

  /** Where the last of the stretches begins. */
  function LastStart(total: nat, skip: nat, n: nat): (last: nat)
    requires n >= 1
    ensures last >= skip
    decreases total - skip
  {
    if skip + n < total then LastStart(total, skip + n, n) else skip
  }

  lemma {:induction false} LastStartIs(total: nat, j: nat, n: nat)
    requires n >= 1 && (j == 0 || j * n < total)
    ensures LastStart(total, j * n, n) == if total == 0 then 0 else (total - 1) / n * n
    decreases total - j * n
  {
    if j * n + n < total {
      assert (j + 1) * n == j * n + n;
      LastStartIs(total, j + 1, n);
    } else if total > 0 {
      QuotientIs(total - 1, j, n);
    }
  }

  lemma QuotientIs(a: nat, j: nat, n: nat)
    requires n >= 1 && j * n <= a < j * n + n
    ensures a / n == j
  {
    var q := a / n;
    assert q * n <= a < q * n + n;
    if q < j {
      TimesKeepsOrder(q + 1, j, n);
    } else if q > j {
      TimesKeepsOrder(j + 1, q, n);
    }
  }

  lemma TimesKeepsOrder(a: nat, b: nat, n: nat)
    requires a <= b
    ensures a * n <= b * n
  {
    assert (b - a) * n >= 0 && b * n == a * n + (b - a) * n;
  }

  /** Cutting ends exactly when the last stretch begins within reach: then with the rest of the list
      in hand, after no more stretches than elements left, and one at least; otherwise some are
      missing. */
  lemma {:induction false} CutIsTheRest(all: seq<DeviceAuth>, skip: nat, n: nat, requests: nat)
    requires n >= 1 && |all| < skip + requests && requests >= 1
    ensures var cut := Cut(all, skip, n, requests);
            && (cut.ended <==> LastStart(|all|, skip, n) < SKIP_LIMIT)
            && (cut.ended ==>
                  && cut.rows == (if |all| <= skip then [] else all[skip..])
                  && cut.sent <= (if |all| <= skip then 1 else |all| - skip))
            && (!cut.ended && skip < |all| ==> |cut.rows| < |all| - skip)
    decreases requests
  {
    if skip < SKIP_LIMIT && skip + n < |all| {
      CutIsTheRest(all, skip + n, n, requests - 1);
      assert all[skip..skip + n] + all[skip + n..] == all[skip..];
    }
  }

  lemma {:induction false} FollowIsCut(ask: Query -> Option<Ask>, service: Query -> Answer, q: Query, k: Ask, all: seq<DeviceAuth>, requests: nat)
    requires ask(q) == Some(k) && PagesOf(ask, service, k.filter, all)
    requires Earlier(k.page, k.perPage) < SKIP_LIMIT + k.perPage
    ensures Follow(service, q, requests) == Cut(all, Earlier(k.page, k.perPage), k.perPage, requests)
    decreases requests
  {
    var skip := Earlier(k.page, k.perPage);
    assert PageOf(ask, service, q, k, all);
    if requests > 0 && skip < SKIP_LIMIT && skip + k.perPage < |all| {
      EarlierBounds(k.page, k.perPage);
      assert Earlier(k.page + 1, k.perPage) == skip + k.perPage;
      FollowIsCut(ask, service, NextOf(service(q).links).value, k.(page := k.page + 1), all, requests - 1);
    }
  }

  /** From any page within reach, the links that the handler writes lead through the rest of the
      listing and then end, exactly when its last page is within reach too. */
  lemma FollowIsTheRest(docs: seq<Doc>, path: string, q: Query, k: Ask, requests: nat)
    requires AskOf(q) == Some(k) && Earlier(k.page, k.perPage) < SKIP_LIMIT
    requires |Listing(docs, k.filter)| < Earlier(k.page, k.perPage) + requests && requests >= 1
    ensures var all, skip := Listing(docs, k.filter), Earlier(k.page, k.perPage);
            var seen := Follow(Handling(docs, path), q, requests);
            && (seen.ended <==> LastStart(|all|, skip, k.perPage) < SKIP_LIMIT)
            && (seen.ended ==>
                  && seen.rows == (if |all| <= skip then [] else all[skip..])
                  && seen.sent <= (if |all| <= skip then 1 else |all| - skip))
            && (!seen.ended && skip < |all| ==> |seen.rows| < |all| - skip)
  {
    AnsweredPages(docs, path, k.filter);
    FollowIsCut(AskOf, Handling(docs, path), q, k, Listing(docs, k.filter), requests);
    CutIsTheRest(Listing(docs, k.filter), Earlier(k.page, k.perPage), k.perPage, requests);
  }

  /** The rows are the stored records that have the given device id and status, an empty one meaning
      any, in strictly increasing order of id, each once. */
  ghost predicate Enumerates(docs: seq<Doc>, deviceId: string, status: string, rows: seq<DeviceAuth>)
    requires Indexed(docs)
  {
    && Increasing(rows)
    && forall r :: r in rows <==>
         exists id :: && id in AsStore(docs) && AsStore(docs)[id] == r
                      && (deviceId == "" || r.deviceId == deviceId) && (status == "" || r.status == status)
  }

  lemma ListingEnumerates(docs: seq<Doc>, filter: Filter)
    requires Indexed(docs)
    ensures Enumerates(docs, filter.deviceId, filter.status, Listing(docs, filter))
  {
    ListingExact(docs, filter);
  }

  /** From the beginning, the rest is the whole. */
  lemma RestFromStart(all: seq<DeviceAuth>, n: nat, seen: Followed)
    requires n >= 1 && (seen.ended <==> LastStart(|all|, 0, n) < SKIP_LIMIT)
    requires seen.ended ==> seen.rows == (if |all| <= 0 then [] else all[0..]) && seen.sent <= (if |all| <= 0 then 1 else |all|)
    ensures seen.ended <==> |all| == 0 || (|all| - 1) / n * n < SKIP_LIMIT
    ensures seen.ended ==> seen.rows == all && (seen.sent <= 1 || seen.sent <= |all|)
  {
    LastStartIs(|all|, 0, n);
    assert all[0..] == all;
  }

  /** Started at the first page of an unchanging store, following the `next` links that the handler
      writes comes to an answer without one, with exactly the matching records collected, after no
      more requests than there are of them (one if there are none), however many a client would
      send. It does so exactly when the last page begins below the driver's limit; beyond that it
      fails with rows missing. */
  lemma LinksEnumerateTheListing(docs: seq<Doc>, path: string, q: Query, k: Ask, requests: nat)
    requires Indexed(docs) && AskOf(q) == Some(k) && k.page == 1 && |Listing(docs, k.filter)| < requests
    ensures var total := |Listing(docs, k.filter)|;
            var seen := Follow(Handling(docs, path), q, requests);
            && (seen.ended <==> total == 0 || (total - 1) / k.perPage * k.perPage < SKIP_LIMIT)
            && (seen.ended ==> Enumerates(docs, Get(q, "device_id"), Get(q, "status"), seen.rows) && (seen.sent <= 1 || seen.sent <= total))
            && (!seen.ended ==> |seen.rows| < total)
  {
    FollowIsTheRest(docs, path, q, k, requests);
    RestFromStart(Listing(docs, k.filter), k.perPage, Follow(Handling(docs, path), q, requests));
    FilterIsOfQuery(q, k);
    ListingEnumerates(docs, k.filter);
  }

  /** Where the driver's 32 bits run out: a page that skips 2^32 rows is answered like the first
      page, which is wrong whenever the listing has any row. */
  lemma WrappedSkipShowsFirstPage(all: seq<DeviceAuth>)
    requires Increasing(all)
    ensures AnswerOf(all, 0x100_0001, 256) == AnswerOf(all, 1, 256)
    ensures var skip := Earlier(0x100_0001, 256);
            && skip == 0x1_0000_0000
            && (AnswerOf(all, 0x100_0001, 256) != Page(Stretch(all, skip, 256), skip + 256 < |all|) <==> all != [])
  {
    EarlierIsProduct(0x100_0001, 256);
    ArithmeticIsExact(0x100_0001, 256);
    ArithmeticIsExact(1, 256);
    PageIsItsStretchIff(all, 0x100_0001, 256);
  }
}
