/** The devauth client: the requests it sends and how it reads the replies. */
module Client {
  import opened Wrappers
  import opened Model

  // ----- strings.Replacer --------------------------------------------------------------------

  predicate HasPrefix(s: string, p: string) {
    |p| <= |s| && s[..|p|] == p
  }

  /** The first pair whose pattern stands at the front of s, or the number of pairs. */
  function FirstPair(s: string, pairs: seq<(string, string)>): (k: nat)
    ensures k <= |pairs|
    ensures k < |pairs| ==> HasPrefix(s, pairs[k].0)
    ensures forall j :: 0 <= j < k ==> !HasPrefix(s, pairs[j].0)
  {
    if pairs == [] || HasPrefix(s, pairs[0].0) then 0 else 1 + FirstPair(s, pairs[1..])
  }

  /** One pass from left to right; a replacement is never looked at again. */
  function Replace(s: string, pairs: seq<(string, string)>): string
    requires forall i :: 0 <= i < |pairs| ==> pairs[i].0 != ""
  {
    if s == "" then ""
    else
      var k := FirstPair(s, pairs);
      if k < |pairs| then pairs[k].1 + Replace(s[|pairs[k].0|..], pairs)
      else [s[0]] + Replace(s[1..], pairs)
  }

  function Pairs(deviceId: string, authId: string): seq<(string, string)> {
    [("{id}", deviceId), ("{aid}", authId)]
  }

  /** Which pattern, if any, starts at a character: only an opening brace can start one. */
  lemma PatternAt(s: string, deviceId: string, authId: string)
    ensures var k := FirstPair(s, Pairs(deviceId, authId));
            && (HasPrefix(s, "{id}") ==> k == 0)
            && (HasPrefix(s, "{aid}") ==> k == 1)
            && (s != "" && s[0] != '{' ==> k == 2)
  {
    var pairs := Pairs(deviceId, authId);
    var k := FirstPair(s, pairs);
    assert "{id}"[1] != "{aid}"[1];
    if HasPrefix(s, "{aid}") {
      assert s[1] == "{aid}"[1];
      assert pairs[1].0 == "{aid}";
    }
    if k < 2 {
      assert HasPrefix(s, pairs[k].0) && s[0] == pairs[k].0[0];
    }
  }

  lemma CopiesCharacter(c: char, rest: string, deviceId: string, authId: string)
    requires c != '{'
    ensures Replace([c] + rest, Pairs(deviceId, authId)) == [c] + Replace(rest, Pairs(deviceId, authId))
  {
    var s := [c] + rest;
    PatternAt(s, deviceId, authId);
    assert s[1..] == rest;
  }

  /** Text without an opening brace is copied. */
  lemma {:induction false} CopiesLiteral(p: string, rest: string, deviceId: string, authId: string)
    requires '{' !in p
    ensures Replace(p + rest, Pairs(deviceId, authId)) == p + Replace(rest, Pairs(deviceId, authId))
  {
    var tail := Replace(rest, Pairs(deviceId, authId));
    if p == "" {
      assert p + rest == rest && p + tail == tail;
    } else {
      var c, p' := p[0], p[1..];
      assert c in p && forall d :: d in p' ==> d in p;
      CopiesLiteral(p', rest, deviceId, authId);
      CopiesCharacter(c, p' + rest, deviceId, authId);
      Regroup(c, p, p', rest);
      Regroup(c, p, p', tail);
    }
  }

  lemma Regroup(c: char, p: string, p': string, rest: string)
    requires p != "" && c == p[0] && p' == p[1..]
    ensures [c] + (p' + rest) == p + rest
  {
  }

  lemma FillsDevice(rest: string, deviceId: string, authId: string)
    ensures Replace("{id}" + rest, Pairs(deviceId, authId)) == deviceId + Replace(rest, Pairs(deviceId, authId))
  {
    var s := "{id}" + rest;
    assert s[..4] == "{id}" && s[4..] == rest;
    PatternAt(s, deviceId, authId);
  }

  lemma FillsAuth(rest: string, deviceId: string, authId: string)
    ensures Replace("{aid}" + rest, Pairs(deviceId, authId)) == authId + Replace(rest, Pairs(deviceId, authId))
  {
    var s := "{aid}" + rest;
    assert s[..5] == "{aid}" && s[5..] == rest;
    PatternAt(s, deviceId, authId);
  }

  // ----- URLs --------------------------------------------------------------------------------

  const DEVICES_PATH := "/api/management/v1/devauth/devices/"
  const AUTH_PATH := "/auth/"
  const STATUS_PATH := "/status"
  const PREAUTHORIZE_URI := "/api/management/v1/devauth/devices"

  /** `defaultDevAuthUri` and, with the status suffix, `defaultDevAuthDevicesUri`. */
  const AUTH_SET_URI := DEVICES_PATH + "{id}" + AUTH_PATH + "{aid}"
  const STATUS_URI := AUTH_SET_URI + STATUS_PATH

  function BuildDevAuthUpdateUrl(base: string, deviceId: string, authId: string): string {
    Replace(base + STATUS_URI, Pairs(deviceId, authId))
  }

  function BuildAuthSetUrl(base: string, deviceId: string, authId: string): string {
    Replace(base + AUTH_SET_URI, Pairs(deviceId, authId))
  }

  lemma ReplacesTemplate(base: string, deviceId: string, authId: string, suffix: string)
    requires '{' !in base && '{' !in suffix
    ensures Replace(base + (AUTH_SET_URI + suffix), Pairs(deviceId, authId))
         == base + DEVICES_PATH + deviceId + AUTH_PATH + authId + suffix
  {
    var afterId := AUTH_PATH + ("{aid}" + suffix);
    CopiesLiteral(suffix, "", deviceId, authId);
    FillsAuth(suffix, deviceId, authId);
    CopiesLiteral(AUTH_PATH, "{aid}" + suffix, deviceId, authId);
    FillsDevice(afterId, deviceId, authId);
    CopiesLiteral(base + DEVICES_PATH, "{id}" + afterId, deviceId, authId);
    TemplateSplits(base, suffix);
    ResultSplits(base, deviceId, authId, suffix);
  }

  lemma TemplateSplits(base: string, suffix: string)
    ensures base + (AUTH_SET_URI + suffix)
         == (base + DEVICES_PATH) + ("{id}" + (AUTH_PATH + ("{aid}" + suffix)))
    ensures suffix + "" == suffix
  {
    var id, aid := "{id}", "{aid}";
    assert AUTH_SET_URI + suffix == DEVICES_PATH + (id + (AUTH_PATH + (aid + suffix)));
  }

  lemma ResultSplits(base: string, deviceId: string, authId: string, suffix: string)
    ensures (base + DEVICES_PATH) + (deviceId + (AUTH_PATH + (authId + suffix)))
         == base + DEVICES_PATH + deviceId + AUTH_PATH + authId + suffix
  {
  }

  /** Both ids stand in their places, whatever text they hold, the patterns included. */
  lemma UrlsAreExact(base: string, deviceId: string, authId: string)
    requires '{' !in base
    ensures BuildDevAuthUpdateUrl(base, deviceId, authId)
         == base + "/api/management/v1/devauth/devices/" + deviceId + "/auth/" + authId + "/status"
    ensures BuildAuthSetUrl(base, deviceId, authId) == base + "/api/management/v1/devauth/devices/" + deviceId + "/auth/" + authId
  {
    ReplacesTemplate(base, deviceId, authId, STATUS_PATH);
    ReplacesTemplate(base, deviceId, authId, "");
    assert AUTH_SET_URI + "" == AUTH_SET_URI;
    var u := base + DEVICES_PATH + deviceId + AUTH_PATH + authId;
    assert u + "" == u;
  }

  /** Two sets share a URL exactly when their ids around the separator spell the same text. */
  lemma SameUrlIff(base: string, deviceId: string, authId: string, deviceId': string, authId': string)
    requires '{' !in base
    ensures var same := deviceId + AUTH_PATH + authId == deviceId' + AUTH_PATH + authId';
            && (BuildDevAuthUpdateUrl(base, deviceId, authId) == BuildDevAuthUpdateUrl(base, deviceId', authId') <==> same)
            && (BuildAuthSetUrl(base, deviceId, authId) == BuildAuthSetUrl(base, deviceId', authId') <==> same)
  {
    UrlsAreExact(base, deviceId, authId);
    UrlsAreExact(base, deviceId', authId');
    var u, v := deviceId + AUTH_PATH + authId, deviceId' + AUTH_PATH + authId';
    var front := base + DEVICES_PATH;
    Cancel(front, u, v, "");
    Cancel(front, u, v, STATUS_PATH);
    assert front + deviceId + AUTH_PATH + authId == front + u + "";
    assert front + deviceId' + AUTH_PATH + authId' == front + v + "";
    assert front + deviceId + AUTH_PATH + authId + STATUS_PATH == front + u + STATUS_PATH;
    assert front + deviceId' + AUTH_PATH + authId' + STATUS_PATH == front + v + STATUS_PATH;
  }

  lemma Cancel(front: string, a: string, b: string, back: string)
    ensures front + a + back == front + b + back <==> a == b
  {
    if front + a + back == front + b + back {
      var s := front + a + back;
      assert |s| == |front + b + back|;
      assert a == s[|front|..|front| + |a|] && b == s[|front|..|front| + |b|];
    }
  }

  /** Different pairs go to different URLs, whatever the device ids hold, as long as authentication
      set ids hold no slash; or the other way round. */
  lemma UrlsAreInjective(base: string, deviceId: string, authId: string, deviceId': string, authId': string)
    requires '{' !in base
    requires ('/' !in authId && '/' !in authId') || ('/' !in deviceId && '/' !in deviceId')
    requires || BuildDevAuthUpdateUrl(base, deviceId, authId) == BuildDevAuthUpdateUrl(base, deviceId', authId')
             || BuildAuthSetUrl(base, deviceId, authId) == BuildAuthSetUrl(base, deviceId', authId')
    ensures deviceId == deviceId' && authId == authId'
  {
    SameUrlIff(base, deviceId, authId, deviceId', authId');
    if '/' !in authId && '/' !in authId' {
      SplitAtLastSlash(deviceId, authId, deviceId', authId');
    } else {
      SplitAtFirstSlash(deviceId, authId, deviceId', authId');
    }
  }

  /** A slash-free back part is what stands after the last slash. */
  lemma SplitAtLastSlash(a: string, x: string, b: string, y: string)
    requires '/' !in x && '/' !in y && a + AUTH_PATH + x == b + AUTH_PATH + y
    ensures a == b && x == y
  {
    if |x| < |y| {
      LastSlash(a, x, b, y);
      assert false;
    } else if |y| < |x| {
      LastSlash(b, y, a, x);
      assert false;
    }
    var s := a + AUTH_PATH + x;
    assert x == s[|s| - |x|..] && y == (b + AUTH_PATH + y)[|s| - |x|..];
    assert a == s[..|a|] && b == (b + AUTH_PATH + y)[..|a|];
  }

  /** The slash before the shorter back part falls into the longer one. */
  lemma LastSlash(a: string, x: string, b: string, y: string)
    requires |x| < |y| && a + AUTH_PATH + x == b + AUTH_PATH + y
    ensures '/' in y
  {
    var s, t := a + AUTH_PATH + x, b + AUTH_PATH + y;
    var k := |s| - |x| - 1;
    assert s[k] == AUTH_PATH[5] == '/';
    assert t[k] == y[k - (|t| - |y|)];
  }

  /** A slash-free front part is what stands before the first slash. */
  lemma SplitAtFirstSlash(a: string, x: string, b: string, y: string)
    requires '/' !in a && '/' !in b && a + AUTH_PATH + x == b + AUTH_PATH + y
    ensures a == b && x == y
  {
    if |a| < |b| {
      FirstSlash(a, x, b, y);
      assert false;
    } else if |b| < |a| {
      FirstSlash(b, y, a, x);
      assert false;
    }
    var s := a + AUTH_PATH + x;
    assert a == s[..|a|] && b == (b + AUTH_PATH + y)[..|a|];
    assert x == s[|a| + |AUTH_PATH|..] && y == (b + AUTH_PATH + y)[|a| + |AUTH_PATH|..];
  }

  /** The slash after the shorter front part falls into the longer one. */
  lemma FirstSlash(a: string, x: string, b: string, y: string)
    requires |a| < |b| && a + AUTH_PATH + x == b + AUTH_PATH + y
    ensures '/' in b
  {
    var s, t := a + AUTH_PATH + x, b + AUTH_PATH + y;
    assert s[|a|] == AUTH_PATH[0] == '/' && t[|a|] == b[|a|];
  }

  // ----- requests and replies ----------------------------------------------------------------

  const NO_CONTENT := 204
  const CREATED := 201
  const UNPROCESSABLE := 422

  /** What becomes of a call: its URL does not parse and nothing is sent, no response comes back, or
      a status code does and, when the body decodes as an API error, its message. */
  datatype HttpResult = BadUrl | TransportError | Response(code: int, apiError: Option<string>)

  datatype Payload = NoBody | StatusBody(status: string) | PreAuthBody(deviceId: string, authSetId: string, idData: string, pubKey: string)

  datatype HttpRequest = HttpRequest(verb: string, url: string, body: Payload)

  predicate Acks204(r: HttpResult) {
    r.Response? && r.code == NO_CONTENT
  }

  predicate Acks201(r: HttpResult) {
    r.Response? && r.code == CREATED
  }

  /** devauth refuses with 422 and says why in a body that decodes. */
  predicate Refuses(r: HttpResult) {
    r.Response? && r.code == UNPROCESSABLE && r.apiError.Some?
  }

  method UpdateDevice(base: string, deviceId: string, authId: string, status: string, rsp: HttpResult)
    returns (sent: seq<HttpRequest>, err: Option<Error>)
    ensures sent == if rsp.BadUrl? then [] else [HttpRequest("PUT", BuildDevAuthUpdateUrl(base, deviceId, authId), StatusBody(status))]
    ensures err.None? <==> rsp.Response? && rsp.code == 204
    ensures err.Some? ==> (IsUsageError(err.value) <==> rsp.Response? && rsp.code == 422 && rsp.apiError.Some?)
    ensures Refuses(rsp) ==> err == Some(UsageError(rsp.apiError.value))
    ensures err != Some(ErrNotFound)
  {
    var url := BuildDevAuthUpdateUrl(base, deviceId, authId);
    if rsp.BadUrl? {
      return [], Wrap(Some(Failure("url")), "failed to prepare dev auth request");
    }
    sent := [HttpRequest("PUT", url, StatusBody(status))];
    if rsp.TransportError? {
      return sent, Wrap(Some(Failure("transport")), "failed to update device status");
    }
    if rsp.code == NO_CONTENT {
      return sent, None;
    } else if rsp.code == UNPROCESSABLE {
      if rsp.apiError.Some? {
        return sent, Some(UsageError(rsp.apiError.value));
      } else {
        return sent, Wrap(Some(Failure("body")), "device status update request failed");
      }
    } else {
      return sent, Some(Failure("device status update request failed"));
    }
  }

  method PreauthorizeDevice(base: string, body: Payload, rsp: HttpResult) returns (sent: seq<HttpRequest>, err: Option<Error>)
    ensures sent == if rsp.BadUrl? then [] else [HttpRequest("POST", base + "/api/management/v1/devauth/devices", body)]
    ensures err.None? <==> rsp.Response? && rsp.code == 201
    ensures err.Some? ==> err.value.Wrapped? || err.value.Failure?
  {
    if rsp.BadUrl? {
      return [], Wrap(Some(Failure("url")), "failed to prepare dev auth POST request");
    }
    sent := [HttpRequest("POST", base + PREAUTHORIZE_URI, body)];
    if rsp.TransportError? {
      return sent, Wrap(Some(Failure("transport")), "failed to preauthorize device");
    }
    if rsp.code == CREATED {
      return sent, None;
    }
    return sent, Some(Failure("device preauthorize request failed"));
  }

  method DeleteDeviceAuthSet(base: string, deviceId: string, authId: string, rsp: HttpResult)
    returns (sent: seq<HttpRequest>, err: Option<Error>)
    ensures sent == if rsp.BadUrl? then [] else [HttpRequest("DELETE", BuildAuthSetUrl(base, deviceId, authId), NoBody)]
    ensures err.None? <==> rsp.Response? && rsp.code == 204
    ensures err.Some? ==> err.value.Wrapped? || err.value.Failure?
  {
    var url := BuildAuthSetUrl(base, deviceId, authId);
    if rsp.BadUrl? {
      return [], Wrap(Some(Failure("url")), "failed to prepare dev auth DELETE request");
    }
    sent := [HttpRequest("DELETE", url, NoBody)];
    if rsp.TransportError? {
      return sent, Wrap(Some(Failure("transport")), "failed to preauthorize device");
    }
    if rsp.code == NO_CONTENT {
      return sent, None;
    }
    return sent, Some(Failure("delete device authentication set request failed"));
  }
}
