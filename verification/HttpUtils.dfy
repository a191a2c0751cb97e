/** Query parameters and page links. */
module HttpUtils {
  import opened Wrappers
  import opened Model

  const PAGE_NAME := "page"
  const PER_PAGE_NAME := "per_page"
  const PER_PAGE_MAX := 500
  const PER_PAGE_DEFAULT := 20
  const MAX_UINT32 := 0xFFFF_FFFF
  const MAX_UINT64 := 0xFFFF_FFFF_FFFF_FFFF
  const LINK_PREV := "prev"
  const LINK_NEXT := "next"
  const LINK_FIRST := "first"

  /** Decoded query values, as `url.Values`. */
  type Query = map<string, seq<string>>

  datatype Parsed<+T> = Accepted(value: T) | Rejected(err: Error)

  // ----- decimal numbers ---------------------------------------------------------------------

  predicate AllDigits(s: string) {
    forall i :: 0 <= i < |s| ==> '0' <= s[i] <= '9'
  }

  function DigitsValue(s: string): nat
    requires AllDigits(s)
  {
    if s == "" then 0 else 10 * DigitsValue(s[..|s| - 1]) + (s[|s| - 1] as int - '0' as int)
  }

  /** `strconv.ParseUint(s, 10, 32)`. */
  function ParseUint32(s: string): Option<nat> {
    if s == "" || !AllDigits(s) then None
    else if DigitsValue(s) <= MAX_UINT32 then Some(DigitsValue(s)) else None
  }

  /** `strconv.Itoa`. */
  function Itoa(n: nat): string {
    if n < 10 then ["0123456789"[n]] else Itoa(n / 10) + ["0123456789"[n % 10]]
  }

  lemma DigitAt(n: nat)
    requires n < 10
    ensures var c := "0123456789"[n]; '0' <= c <= '9' && c as int - '0' as int == n
  {
  }

  lemma {:induction false} ItoaDigits(n: nat)
    ensures Itoa(n) != "" && AllDigits(Itoa(n)) && DigitsValue(Itoa(n)) == n
  {
    if n < 10 {
      DigitAt(n);
      assert Itoa(n)[..0] == "";
    } else {
      ItoaDigits(n / 10);
      DigitAt(n % 10);
      var s := Itoa(n);
      assert s[..|s| - 1] == Itoa(n / 10);
    }
  }

  /** A printed number reads back as itself as long as it fits 32 bits, and is refused otherwise. */
  lemma PrintParse(n: nat)
    ensures ParseUint32(Itoa(n)) == if n <= MAX_UINT32 then Some(n) else None
  {
    ItoaDigits(n);
  }

  /** The most significant digit comes first. */
  lemma DecimalOrder()
    ensures ParseUint32("120") == Some(120) && ParseUint32("") == None && ParseUint32("1x") == None
  {
    assert "120"[..2] == "12" && "12"[..1] == "1" && "1"[..0] == "";
    assert DigitsValue("1") == 1 && DigitsValue("12") == 12;
    assert "1x"[1] == 'x';
  }

  // ----- parameters --------------------------------------------------------------------------

  function Get(q: Query, name: string): string {
    if name in q && q[name] != [] then q[name][0] else ""
  }

  function ParseQueryParmUInt(q: Query, name: string, required: bool, min: nat, max: nat, def: nat): Parsed<nat> {
    var strVal := Get(q, name);
    if strVal == "" then
      if required then Rejected(Failure("Missing required param " + name)) else Accepted(def)
    else
      var uintVal := ParseUint32(strVal);
      if uintVal.None? then Rejected(Failure("Can't parse param " + name))
      else if uintVal.value < min || max < uintVal.value then Rejected(Failure("Param " + name + " is out of bounds"))
      else Accepted(uintVal.value)
  }

  /** Refused exactly if missing though required, not a decimal number of 32 bits, or out of bounds. */
  lemma ParsedUIntIs(q: Query, name: string, required: bool, min: nat, max: nat, def: nat)
    ensures var r, val := ParseQueryParmUInt(q, name, required, min, max, def), Get(q, name);
            if val == "" then (if required then r.Rejected? else r == Accepted(def))
            else if AllDigits(val) && DigitsValue(val) <= 0xFFFF_FFFF && min <= DigitsValue(val) <= max then r == Accepted(DigitsValue(val))
            else r.Rejected?
  {
  }

  /** `allowed` is absent where the original passes nil. */
  function ParseQueryParmStr(q: Query, name: string, required: bool, allowed: Option<seq<string>>): (r: Parsed<string>)
    ensures r.Accepted? ==> r.value == Get(q, name) && (required ==> r.value != "")
    ensures r.Accepted? && allowed.Some? && r.value != "" ==> r.value in allowed.value
    ensures r.Rejected? <==> (if Get(q, name) == "" then required else allowed.Some? && Get(q, name) !in allowed.value)
  {
    var val := Get(q, name);
    if val == "" then
      if required then Rejected(Failure("Missing required param " + name)) else Accepted(val)
    else if allowed.Some? && val !in allowed.value then Rejected(Failure("Param " + name + " must be one of the allowed values"))
    else Accepted(val)
  }

  /** A parameter that is absent, or a decimal number from one to its bound. */
  predicate InBounds(s: string, max: nat) {
    s == "" || (AllDigits(s) && 1 <= DigitsValue(s) <= max)
  }

  function ParsePagination(q: Query): (r: Parsed<(nat, nat)>)
    ensures r.Accepted? <==> InBounds(Get(q, PAGE_NAME), MAX_UINT32) && InBounds(Get(q, PER_PAGE_NAME), PER_PAGE_MAX)
    ensures r.Accepted? ==> r.value.0 == if Get(q, PAGE_NAME) == "" then 1 else DigitsValue(Get(q, PAGE_NAME))
    ensures r.Accepted? ==> r.value.1 == if Get(q, PER_PAGE_NAME) == "" then 20 else DigitsValue(Get(q, PER_PAGE_NAME))
    ensures r.Accepted? ==> 1 <= r.value.0 <= MAX_UINT32 && 1 <= r.value.1 <= PER_PAGE_MAX
  {
    var page := ParseQueryParmUInt(q, PAGE_NAME, false, 1, MAX_UINT64, 1);
    if page.Rejected? then Rejected(page.err)
    else
      var perPage := ParseQueryParmUInt(q, PER_PAGE_NAME, false, 1, PER_PAGE_MAX, PER_PAGE_DEFAULT);
      if perPage.Rejected? then Rejected(perPage.err) else Accepted((page.value, perPage.value))
  }

  // ----- links -------------------------------------------------------------------------------

  /** A Link header value (section 3 of RFC 8288) before its query is percent-encoded. */
  datatype Link = Link(resource: string, query: Query, rel: string)

  /** `url.Values`: one map that every link of a response is made from. */
  class Values {
    var m: Query

    constructor (q: Query)
      ensures m == q
    {
      m := q;
    }

    method Set(name: string, value: string)
      modifies this
      ensures m == old(m)[name := [value]]
    {
      m := m[name := [value]];
    }
  }

  /** The query a link to a page is to carry. */
  function PageQuery(q: Query, page: nat, perPage: nat): Query {
    q[PAGE_NAME := [Itoa(page)]][PER_PAGE_NAME := [Itoa(perPage)]]
  }

  function LastSegment(path: string): string {
    if '/' !in path then path else LastSegment(path[1..])
  }

  /** The slash-free rest of the path after its last slash, or all of it. */
  lemma {:induction false} LastSegmentEndsThePath(path: string)
    ensures EndsPath(path, LastSegment(path))
  {
    if '/' in path {
      LastSegmentEndsThePath(path[1..]);
      var last := LastSegment(path);
      if path[1..] == last {
        assert path == "/" + last;
        assert path[|path| - |last| - 1..] == path;
      } else {
        assert path[|path| - |last| - 1..] == path[1..][|path| - 1 - |last| - 1..];
      }
    }
  }

  /** A resource holds no slash, and is the whole path or what follows its last slash. */
  predicate EndsPath(path: string, last: string) {
    '/' !in last && (path == last || (|last| < |path| && path[|path| - |last| - 1..] == "/" + last))
  }

  method MakeLink(rel: string, resource: string, query: Values, page: nat, perPage: nat) returns (link: Link)
    modifies query
    ensures query.m == PageQuery(old(query.m), page, perPage)
    ensures link == Link(resource, query.m, rel)
  {
    query.Set(PAGE_NAME, Itoa(page));
    query.Set(PER_PAGE_NAME, Itoa(perPage));
    link := Link(resource, query.m, rel);
  }

  function PageLink(path: string, q: Query, page: nat, perPage: nat, rel: string): Link {
    Link(LastSegment(path), PageQuery(q, page, perPage), rel)
  }

  /** The links of a page, each made from the request's own query. */
  function PageLinks(path: string, q: Query, page: nat, perPage: nat, hasNext: bool): seq<Link>
    requires 1 <= page
  {
    (if page > 1 then [PageLink(path, q, page - 1, perPage, LINK_PREV)] else [])
    + (if hasNext then [PageLink(path, q, page + 1, perPage, LINK_NEXT)] else [])
    + [PageLink(path, q, 1, perPage, LINK_FIRST)]
  }

  /** There is a next link exactly when there is a next page, a previous one exactly after the first
      page, and always one to the first. */
  lemma LinksByRelation(path: string, q: Query, page: nat, perPage: nat, hasNext: bool)
    requires 1 <= page
    ensures var links := PageLinks(path, q, page, perPage, hasNext);
            && ((exists l :: l in links && l.rel == "next") <==> hasNext)
            && ((exists l :: l in links && l.rel == "prev") <==> page > 1)
            && (exists l :: l in links && l.rel == "first")
            && (forall l :: l in links ==> l.rel == "next" || l.rel == "prev" || l.rel == "first")
  {
    var links := PageLinks(path, q, page, perPage, hasNext);
    assert "prev"[0] == 'p' && "next"[0] == 'n' && "first"[0] == 'f';
    assert links[|links| - 1].rel == "first";
    if page > 1 {
      assert links[0].rel == "prev";
    }
    if hasNext {
      assert links[|links| - 2].rel == "next";
    }
  }

  /** Although the links share one mutated map, none shows another's page. */
  method MakePageLinkHdrs(path: string, q: Query, page: nat, perPage: nat, hasNext: bool) returns (links: seq<Link>)
    requires 1 <= page
    ensures links == PageLinks(path, q, page, perPage, hasNext)
  {
    links := [];
    var resource := LastSegment(path);
    var query := new Values(q);
    if page > 1 {
      var prev := MakeLink(LINK_PREV, resource, query, page - 1, perPage);
      links := links + [prev];
      Overwritten(q, page - 1, page + 1, perPage);
      Overwritten(q, page - 1, 1, perPage);
    }
    if hasNext {
      var next := MakeLink(LINK_NEXT, resource, query, page + 1, perPage);
      links := links + [next];
      Overwritten(q, page + 1, 1, perPage);
    }
    var first := MakeLink(LINK_FIRST, resource, query, 1, perPage);
    links := links + [first];
  }

  /** Setting the page again leaves no trace of the page set before. */
  lemma Overwritten(q: Query, before: nat, page: nat, perPage: nat)
    ensures PageQuery(PageQuery(q, before, perPage), page, perPage) == PageQuery(q, page, perPage)
  {
  }

  /** A link reads back as its page and page size, everything else in the query as it was; a link
      to a page that does not fit 32 bits is refused. */
  lemma LinkRoundTrip(q: Query, page: nat, perPage: nat)
    requires 1 <= page && 1 <= perPage <= PER_PAGE_MAX
    ensures ParsePagination(PageQuery(q, page, perPage)).Accepted? <==> page <= MAX_UINT32
    ensures page <= MAX_UINT32 ==> ParsePagination(PageQuery(q, page, perPage)) == Accepted((page, perPage))
    ensures PageQuery(q, page, perPage).Keys == q.Keys + {PAGE_NAME, PER_PAGE_NAME}
    ensures forall name :: name in q && name != PAGE_NAME && name != PER_PAGE_NAME ==>
                             PageQuery(q, page, perPage)[name] == q[name]
  {
    PrintParse(page);
    PrintParse(perPage);
    ItoaDigits(page);
    ItoaDigits(perPage);
    assert Get(PageQuery(q, page, perPage), PAGE_NAME) == Itoa(page);
    assert Get(PageQuery(q, page, perPage), PER_PAGE_NAME) == Itoa(perPage);
  }
}
