/** The HTTP handlers: the gates in front of the application and the status codes it answers.
    Decoded bodies, replies and failures are parameters. */
module Handlers {
  import opened Wrappers
  import opened Model
  import opened Documents
  import opened Records
  import opened DataStores
  import opened Client
  import opened Protocol
  import opened DevAdms
  import opened HttpUtils
  import opened Paging

  datatype Body = Nothing | StatusJson(status: string) | RecordJson(record: DeviceAuth) | ListJson(rows: seq<DeviceAuth>) | ErrorJson

  /** The response being written; the first status code written counts. */
  class ResponseWriter {
    var code: int
    var body: Body
    var links: seq<Link>

    constructor ()
      ensures code == 0 && body == Nothing && links == []
    {
      code, body, links := 0, Nothing, [];
    }

    method WriteHeader(c: int)
      modifies this
      ensures code == (if old(code) == 0 then c else old(code)) && body == old(body) && links == old(links)
    {
      if code == 0 {
        code := c;
      }
    }

    method WriteJson(b: Body)
      modifies this
      ensures code == (if old(code) == 0 then 200 else old(code)) && body == b && links == old(links)
    {
      WriteHeader(200);
      body := b;
    }

    method WriteError(c: int)
      modifies this
      ensures code == (if old(code) == 0 then c else old(code)) && body == ErrorJson && links == old(links)
    {
      WriteHeader(c);
      body := ErrorJson;
    }
  }

  /** The listing handler's three parameter gates, in order. */
  method ListingParameters(q: Query) returns (k: Option<Ask>)
    ensures k == AskOf(q)
  {
    var paging := ParsePagination(q);
    if paging.Rejected? {
      return None;
    }
    var status := ParseQueryParmStr(q, STATUS_NAME, false, Some(DEV_STATUSES));
    if status.Rejected? {
      return None;
    }
    var deviceId := ParseQueryParmStr(q, DEVICE_ID_NAME, false, None);
    if deviceId.Rejected? {
      return None;
    }
    return Some(Ask(paging.value.0, paging.value.1, Filter(deviceId.value, status.value)));
  }

  method AddLinks(w: ResponseWriter, links: seq<Link>)
    modifies w
    ensures w.links == old(w.links) + links && w.code == old(w.code) && w.body == old(w.body)
  {
    var i := 0;
    while i < |links|
      invariant 0 <= i <= |links| && w.code == old(w.code) && w.body == old(w.body)
      invariant w.links == old(w.links) + links[..i]
    {
      w.links := w.links + [links[i]];
      i := i + 1;
    }
    assert links[..i] == links;
  }

  /** What is written is `Answered`, whose links belong to its page: each asks for its page of the
      same listing, with the request's own page size and every other value of its query. */
  method GetDevicesHandler(app: DevAdm, w: ResponseWriter, path: string, q: Query, fault: Fault)
    requires w.code == 0 && w.links == []
    modifies w
    ensures w.code == 400 <==> AskOf(q).None?
    ensures w.code == 500 <==> AskOf(q).Some? && (!fault.Fine? || Answered(app.db.docs, path, q).Failed?)
    ensures w.code in {200, 400, 500}
    ensures w.code == 200 ==>
              && w.body.ListJson? && Answered(app.db.docs, path, q) == Listed(w.body.rows, w.links)
              && (exists more :: LinksBelong(path, q, AskOf(q).value, more, w.links))
    ensures w.code == 200 && Earlier(AskOf(q).value.page, AskOf(q).value.perPage) < 0x8000_0000 ==>
              var k := AskOf(q).value;
              var all, skip := Listing(app.db.docs, k.filter), Earlier(k.page, k.perPage);
              && w.body.rows == Stretch(all, skip, k.perPage)
              && LinksBelong(path, q, k, skip + k.perPage < |all|, w.links)
    ensures w.code >= 400 ==> w.body == ErrorJson && w.links == []
  {
    var k := ListingParameters(q);
    if k.None? {
      w.WriteError(400);
      return;
    }
    AnswerListing(app, w, path, q, k.value, fault);
    if w.code == 200 {
      if Earlier(k.value.page, k.value.perPage) < SKIP_LIMIT {
        PageIsItsStretch(Listing(app.db.docs, k.value.filter), k.value.page, k.value.perPage);
      }
      PageLinksBelong(path, q, k.value, AnswerOf(Listing(app.db.docs, k.value.filter), k.value.page, k.value.perPage).more);
    }
  }

  /** The answer to a request whose parameters parse: 500 when the query fails, the driver's 32-bit
      skip being negative included; otherwise the page and its links. */
  ghost predicate ListingAnswered(docs: seq<Doc>, path: string, q: Query, k: Ask, fault: Fault,
                                  code: int, body: Body, links: seq<Link>)
    requires GoodAsk(k)
  {
    var answer := AnswerOf(Listing(docs, k.filter), k.page, k.perPage);
    if !fault.Fine? || answer.NoPage? then code == 500 && body == ErrorJson && links == []
    else
      && code == 200 && body == ListJson(answer.shown)
      && links == PageLinks(path, q, k.page, k.perPage, answer.more)
  }

  /** Cutting the extra row off and noting that it was there gives the page's answer. */
  lemma AnswerIsWritten(all: seq<DeviceAuth>, page: nat, perPage: nat, devs: seq<DeviceAuth>)
    requires 1 <= page <= MAX_UINT32 && 1 <= perPage <= PER_PAGE_MAX && 0 <= Int32(SkipOf(page, perPage))
    requires devs == Window(all, Int32(SkipOf(page, perPage)), perPage + 1)
    ensures AnswerOf(all, page, perPage) == Page(devs[..if |devs| > perPage then perPage else |devs|], |devs| > perPage)
  {
    assert devs == RowsRead(all, page, perPage);
  }

  method AnswerListing(app: DevAdm, w: ResponseWriter, path: string, q: Query, k: Ask, fault: Fault)
    requires w.code == 0 && w.links == [] && GoodAsk(k)
    modifies w
    ensures ListingAnswered(app.db.docs, path, q, k, fault, w.code, w.body, w.links)
  {
    var page, perPage := k.page, k.perPage;
    ArithmeticIsExact(page, perPage);
    var devs, err := app.ListDeviceAuths(SkipOf(page, perPage), LimitOf(perPage), k.filter, fault);
    if err.Some? {
      w.WriteError(500);
      return;
    }
    var len := |devs|;
    var hasNext := false;
    if len > perPage {
      hasNext := true;
      len := perPage;
    }
    var links := MakePageLinkHdrs(path, q, page, perPage, hasNext);
    AddLinks(w, links);
    AnswerIsWritten(Listing(app.db.docs, k.filter), page, perPage, devs);
    w.WriteJson(ListJson(devs[..len]));
  }

  /** `parseDevice`: the body fills the record, the path gives the id, and every required field is
      checked. `attributes` is what decoding the identity data into the record's attributes leaves,
      absent when it does not decode. */
  method ParseDevice(body: Option<DeviceAuth>, pathId: string, attributes: Option<Attributes>)
    returns (dev: DeviceAuth, err: Option<Error>)
    ensures err.None? <==>
              && body.Some? && pathId != "" && body.value.deviceId != "" && body.value.deviceIdentity != ""
              && body.value.key != "" && attributes.Some? && attributes.value != map[]
    ensures err.None? ==> dev == body.value.(id := pathId, attributes := attributes.value)
  {
    dev := ZERO;
    if body.None? {
      return dev, Wrap(Some(Failure("decode")), "failed to decode request body");
    }
    dev := body.value;
    if pathId == "" {
      return dev, Some(Failure("'id' field required"));
    }
    dev := dev.(id := pathId);
    if dev.deviceId == "" {
      return dev, Some(Failure("'device_id' field required"));
    }
    if dev.deviceIdentity == "" {
      return dev, Some(Failure("'device_identity' field required"));
    }
    if dev.key == "" {
      return dev, Some(Failure("'key' field required"));
    }
    if attributes.None? {
      return dev, Wrap(Some(Failure("decode")), "failed to decode attributes data");
    }
    dev := dev.(attributes := attributes.value);
    if |dev.attributes| == 0 {
      return dev, Some(Failure("no attributes provided"));
    }
    return dev, None;
  }

  /** Only acceptable records reach the store, always as pending. */
  method SubmitDeviceHandler(app: DevAdm, w: ResponseWriter, body: Option<DeviceAuth>, pathId: string,
                             attributes: Option<Attributes>, now: int, fault: Fault)
    requires app.db.Valid() && w.code == 0
    modifies w, app.db
    ensures app.db.Valid()
    ensures w.code in {204, 400, 500}
    ensures w.code == 400 <==>
              !(&& body.Some? && pathId != "" && body.value.deviceId != "" && body.value.deviceIdentity != "" && body.value.key != ""
                && attributes.Some? && attributes.value != map[])
    ensures w.code == 204 <==> w.code != 400 && fault.Fine?
    ensures app.db.View() ==
              if w.code == 400 || fault.FailedBefore? then old(app.db.View())
              else old(app.db.View())[pathId := DeviceAuth(pathId, body.value.deviceId, body.value.deviceIdentity, body.value.key, PENDING,
                                                           attributes.value, Some(now))]
    ensures w.code == 204 ==>
              app.db.View() == Run(Quiet(old(app.db.View())),
                                   [Submit(body.value.(id := pathId, attributes := attributes.value, status := PENDING), now)]).store
    ensures w.code >= 400 ==> w.body == ErrorJson
  {
    var dev, err := ParseDevice(body, pathId, attributes);
    if err.Some? {
      w.WriteError(400);
      return;
    }
    dev := dev.(status := PENDING);
    StatusesDistinct();
    err := app.SubmitDeviceAuth(dev, now, fault);
    if err.Some? {
      w.WriteError(500);
      return;
    }
    w.WriteHeader(204);
  }

  method UpdateDeviceStatusHandler(app: DevAdm, w: ResponseWriter, id: string, body: Option<string>,
                                   read: Fault, rsp: HttpResult, write: Fault)
    returns (sent: seq<HttpRequest>)
    requires app.db.Valid() && w.code == 0
    modifies w, app.db
    ensures app.db.Valid()
    ensures w.code == 400 <==> !(body.Some? && (body.value == ACCEPTED || body.value == REJECTED))
    ensures w.code == 404 <==> w.code != 400 && read.Fine? && id !in old(app.db.View())
    ensures w.code == 422 <==> w.code != 400 && read.Fine? && id in old(app.db.View())
                               && rsp.Response? && rsp.code == 422 && rsp.apiError.Some?
    ensures w.code == 200 <==> w.code != 400 && read.Fine? && id in old(app.db.View()) && Acks204(rsp) && write.Fine?
    ensures w.code in {200, 400, 404, 422, 500}
    ensures w.code == 200 ==> w.body == StatusJson(body.value)
    ensures w.code >= 400 ==> w.body == ErrorJson
    ensures sent == if w.code != 400 && read.Fine? && id in old(app.db.View()) && !rsp.BadUrl?
                    then [HttpRequest("PUT", BuildDevAuthUpdateUrl(app.devauthUrl, old(app.db.View())[id].deviceId, id), StatusBody(body.value))]
                    else []
    ensures app.db.View() ==
              if w.code in {400, 404, 422} || !read.Fine? || !Acks204(rsp) || write.FailedBefore? then old(app.db.View())
              else old(app.db.View())[id := old(app.db.View())[id].(status := body.value)]
  {
    sent := [];
    if body.None? {
      w.WriteError(400);
      return;
    }
    var status := body.value;
    if status != ACCEPTED && status != REJECTED {
      w.WriteError(400);
      return;
    }
    StatusesDistinct();
    var err;
    if status == ACCEPTED {
      sent, err := app.AcceptDeviceAuth(id, read, rsp, write);
    } else {
      sent, err := app.RejectDeviceAuth(id, read, rsp, write);
    }
    if err.Some? {
      if IsUsageError(err.value) {
        w.WriteError(422);
      } else if err.value == ErrNotFound {
        w.WriteError(404);
      } else {
        w.WriteError(500);
      }
      return;
    }
    w.WriteJson(StatusJson(status));
  }

  method AcceptPreauthorizedHandler(app: DevAdm, w: ResponseWriter, id: string, body: Option<string>, read: Fault, write: Fault)
    requires app.db.Valid() && w.code == 0
    modifies w, app.db
    ensures app.db.Valid()
    ensures w.code == 400 <==> body != Some(ACCEPTED)
    ensures w.code == 404 <==> body == Some(ACCEPTED) && read.Fine? && id !in old(app.db.View())
    ensures w.code == 409 <==>
              body == Some(ACCEPTED) && read.Fine? && id in old(app.db.View()) && old(app.db.View())[id].status != PREAUTHORIZED
    ensures w.code == 200 <==>
              && body == Some(ACCEPTED) && read.Fine? && id in old(app.db.View())
              && old(app.db.View())[id].status == PREAUTHORIZED && write.Fine?
    ensures w.code in {200, 400, 404, 409, 500}
    ensures w.code == 200 ==> w.body == StatusJson(ACCEPTED)
    ensures w.code >= 400 ==> w.body == ErrorJson
    ensures app.db.View() ==
              if w.code in {400, 404, 409} || !read.Fine? || write.FailedBefore? then old(app.db.View())
              else old(app.db.View())[id := old(app.db.View())[id].(status := ACCEPTED)]
  {
    if body != Some(ACCEPTED) {
      w.WriteError(400);
      return;
    }
    var err := app.AcceptDevicePreAuth(id, read, write);
    if err.None? {
      w.WriteJson(StatusJson(ACCEPTED));
    } else if err.value == ErrNotPreauthorized {
      w.WriteError(409);
    } else if err.value == ErrAuthNotFound {
      w.WriteError(404);
    } else {
      w.WriteError(500);
    }
  }

  /** `ParseAuthSet`, with the attributes decoded from the identity data. */
  method ParseAuthSet(body: Option<(string, string)>, attributes: Option<Attributes>) returns (authSet: Option<AuthSet>)
    ensures authSet.Some? <==> body.Some? && body.value.0 != "" && body.value.1 != "" && attributes.Some? && attributes.value != map[]
    ensures authSet.Some? ==> authSet.value == AuthSet(body.value.0, body.value.1, attributes.value)
  {
    if body.None? || body.value.0 == "" || body.value.1 == "" || attributes.None? || |attributes.value| == 0 {
      return None;
    }
    return Some(AuthSet(body.value.0, body.value.1, attributes.value));
  }

  method PostDevicesHandler(app: DevAdm, w: ResponseWriter, body: Option<(string, string)>, attributes: Option<Attributes>,
                            now: int, newId: string, newDeviceId: string, query: Fault, write: Fault, rsp: HttpResult)
    returns (sent: seq<HttpRequest>)
    requires app.db.Valid() && w.code == 0
    requires IsObjectIdHex(newId) && IsObjectIdHex(newDeviceId)
    modifies w, app.db
    ensures app.db.Valid()
    ensures w.code in {201, 400, 409, 500}
    ensures w.code == 400 <==> !(body.Some? && body.value.0 != "" && body.value.1 != "" && attributes.Some? && attributes.value != map[])
    ensures w.code == 409 <==> w.code != 400 && query.Fine?
                               && exists id :: id in old(app.db.View()) && old(app.db.View())[id].deviceIdentity == body.value.0
    ensures w.code >= 400 ==> w.body == ErrorJson
    ensures sent == if w.code !in {400, 409} && query.Fine? && write.Fine? && newId !in old(app.db.View()) && !rsp.BadUrl?
                    then [HttpRequest("POST", app.devauthUrl + PREAUTHORIZE_URI, PreAuthBody(newDeviceId, newId, body.value.0, body.value.1))]
                    else []
    ensures w.code == 201 <==> w.code !in {400, 409} && query.Fine? && write.Fine? && newId !in old(app.db.View()) && Acks201(rsp)
    ensures w.code == 201 ==>
              app.db.View() == old(app.db.View())[newId := DeviceAuth(newId, newDeviceId, body.value.0, body.value.1, PREAUTHORIZED,
                                                                         attributes.value, Some(now))]
    ensures app.db.View() ==
              if w.code in {400, 409} || !query.Fine? || write.FailedBefore? then old(app.db.View())
              else Insert(old(app.db.View()), DeviceAuth(newId, newDeviceId, body.value.0, body.value.1, PREAUTHORIZED,
                                                         attributes.value, Some(now)))
  {
    sent := [];
    var authSet := ParseAuthSet(body, attributes);
    if authSet.None? {
      w.WriteError(400);
      return;
    }
    var err;
    sent, err := app.PreauthorizeDevice(authSet.value, now, newId, newDeviceId, query, write, rsp);
    if err.None? {
      w.WriteHeader(201);
    } else if err.value == AuthSetConflict {
      w.WriteError(409);
    } else {
      w.WriteError(500);
    }
  }

  /** An empty device id, which would match every record, is refused before the store is asked. A
      removal that the store reports as failed is answered like a finished one. */
  method DeleteDevicesHandler(app: DevAdm, w: ResponseWriter, q: Query, fault: Fault, spared: set<string>)
    requires app.db.Valid() && w.code == 0
    modifies w, app.db
    ensures app.db.Valid()
    ensures w.code == if Get(q, DEVICE_ID_NAME) == "" then 400 else 204
    ensures app.db.View() ==
              if Get(q, DEVICE_ID_NAME) == "" || fault.FailedBefore? then old(app.db.View())
              else map id | id in old(app.db.View()) && (old(app.db.View())[id].deviceId != Get(q, DEVICE_ID_NAME) || (!fault.Fine? && id in spared)) ::
                   old(app.db.View())[id]
  {
    var devid := ParseQueryParmStr(q, DEVICE_ID_NAME, true, None);
    if devid.Rejected? {
      w.WriteError(400);
      return;
    }
    DeleteByDeviceIs(app.db.View(), devid.value, if fault.Fine? then {} else spared);
    var err := app.DeleteDeviceData(devid.value, fault, spared);
    if err.Some? && err.value != ErrNotFound {
      assert false;
    }
    w.WriteHeader(204);
  }

  method DeleteDeviceHandler(app: DevAdm, w: ResponseWriter, id: string, fault: Fault)
    requires app.db.Valid() && w.code == 0
    modifies w, app.db
    ensures app.db.Valid()
    ensures w.code == if fault.Fine? then 204 else 500
    ensures app.db.View() == if fault.FailedBefore? then old(app.db.View()) else old(app.db.View()) - {id}
  {
    var err := app.DeleteDeviceAuth(id, fault);
    if err.Some? && err.value != ErrNotFound {
      w.WriteError(500);
      return;
    }
    w.WriteHeader(204);
  }

  /** A set that is not here is answered like one that was deleted; one that is here is deleted
      only after devauth deleted it. */
  method DeleteDeviceManagementHandler(app: DevAdm, w: ResponseWriter, id: string, read: Fault, rsp: HttpResult, write: Fault)
    returns (sent: seq<HttpRequest>)
    requires app.db.Valid() && w.code == 0
    modifies w, app.db
    ensures app.db.Valid()
    ensures w.code == 204 || w.code == 500
    ensures sent == if read.Fine? && id in old(app.db.View()) && !rsp.BadUrl?
                    then [HttpRequest("DELETE", BuildAuthSetUrl(app.devauthUrl, old(app.db.View())[id].deviceId, id), NoBody)]
                    else []
    ensures w.code == 204 <==> read.Fine? && (id in old(app.db.View()) ==> Acks204(rsp) && write.Fine?)
    ensures app.db.View() == if read.Fine? && Acks204(rsp) && !write.FailedBefore? then old(app.db.View()) - {id} else old(app.db.View())
  {
    assert id !in app.db.View() ==> app.db.View() - {id} == app.db.View();
    var err;
    sent, err := app.DeleteDeviceAuthPropagate(id, read, rsp, write);
    if err.Some? && err.value != ErrNotFound {
      w.WriteError(500);
      return;
    }
    w.WriteHeader(204);
  }
}
