/** The authenticated fetch from the Helix API (`fetch_json` in
    twitchrss.py): renew the credential, build one GET request from a URL
    template and an id, send it up to three times, and decompress the body
    when the response says it is gzip. */
module Fetch {
  import opened Common
  import opened Text
  import Auth

  /** A `%`-format template with a single `%s`, held as the text on either
      side of it. */
  datatype UrlTemplate = UrlTemplate(prefix: string, suffix: string)

  /** `url_template % id`. */
  function Url(t: UrlTemplate, id: string): (url: string)
    ensures StartsWith(url, t.prefix) && EndsWith(url, t.suffix)
    ensures |url| == |t.prefix| + |id| + |t.suffix|
  {
    t.prefix + id + t.suffix
  }

  /** The id can be read back from the URL: two ids never share a URL. */
  function IdOfUrl(t: UrlTemplate, url: string): string
    requires |t.prefix| + |t.suffix| <= |url|
  {
    url[|t.prefix|..|url| - |t.suffix|]
  }

  lemma UrlRoundTrip(t: UrlTemplate, id: string)
    ensures IdOfUrl(t, Url(t, id)) == id
  {
  }

  /** The GET request `fetch_json` builds. */
  datatype Request = Request(url: string, authorization: string, clientId: string, acceptEncoding: string)

  function BuildRequest(t: UrlTemplate, id: string, token: string, clientId: string): (req: Request)
    ensures req.authorization == "Bearer " + token && req.acceptEncoding == "gzip"
    ensures |t.prefix| + |t.suffix| <= |req.url| && IdOfUrl(t, req.url) == id && req.clientId == clientId
  {
    UrlRoundTrip(t, id);
    Request(Url(t, id), "Bearer " + token, clientId, "gzip")
  }

  /** What `urlopen` gave for one attempt: an exception (transport error or a
      non-2xx status), or a response with its `Content-Encoding` header and raw
      body. */
  datatype Reply = Failed | Answered(contentEncoding: Option<string>, body: Bytes)

  function ReplyAt(replies: seq<Reply>, i: nat): Reply
  {
    if i < |replies| then replies[i] else Failed
  }

  /** The value the `try` block returns for a reply, or None when it raises:
      `gunzip` (gzip.decompress, which may raise) is applied exactly when the
      header equals "gzip". */
  function Payload(reply: Reply, gunzip: Bytes -> Option<Bytes>): (p: Option<Bytes>)
    ensures reply.Failed? ==> p.None?
    ensures reply.Answered? && reply.contentEncoding != Some("gzip") ==> p == Some(reply.body)
  {
    match reply
    case Failed => None
    case Answered(encoding, body) => if encoding == Some("gzip") then gunzip(body) else Some(body)
  }

  /** The result of the retry loop and the requests it sent, in order. */
  datatype Retrieval = Retrieval(result: Result<Bytes>, sent: seq<Request>)

  /** The retry loop from attempt `retries` on, `sent` being what it has sent. */
  function Retrieve(req: Request, replies: seq<Reply>, gunzip: Bytes -> Option<Bytes>,
                    retries: nat, sent: seq<Request>): (r: Retrieval)
    requires retries <= MAX_ATTEMPTS && |sent| == retries
    ensures retries <= |r.sent| <= MAX_ATTEMPTS && r.sent[..retries] == sent
    ensures forall k :: retries <= k < |r.sent| ==> r.sent[k] == req
    ensures r.result.Err? ==>
              r.result.failure == Abort(SERVICE_UNAVAILABLE) && |r.sent| == MAX_ATTEMPTS &&
              forall k :: retries <= k < MAX_ATTEMPTS ==> Payload(ReplyAt(replies, k), gunzip).None?
    ensures r.result.Ok? ==>
              retries < |r.sent| &&
              Payload(ReplyAt(replies, |r.sent| - 1), gunzip) == Some(r.result.value) &&
              forall k :: retries <= k < |r.sent| - 1 ==> Payload(ReplyAt(replies, k), gunzip).None?
    decreases MAX_ATTEMPTS - retries
  {
    if retries == MAX_ATTEMPTS then Retrieval(Err(Abort(SERVICE_UNAVAILABLE)), sent)
    else match Payload(ReplyAt(replies, retries), gunzip)
      case None => Retrieve(req, replies, gunzip, retries + 1, sent + [req])
      case Some(body) => Retrieval(Ok(body), sent + [req])
  }

  /** The `while retries < 3` loop of `fetch_json`. */
  method SendWithRetries(req: Request, replies: seq<Reply>, gunzip: Bytes -> Option<Bytes>)
    returns (result: Result<Bytes>, sent: seq<Request>)
    ensures Retrieval(result, sent) == Retrieve(req, replies, gunzip, 0, [])
  {
    var retries := 0;
    sent := [];
    while retries < MAX_ATTEMPTS
      invariant retries <= MAX_ATTEMPTS && |sent| == retries
      invariant Retrieve(req, replies, gunzip, retries, sent) == Retrieve(req, replies, gunzip, 0, [])
      decreases MAX_ATTEMPTS - retries
    {
      sent := sent + [req];
      var reply := ReplyAt(replies, retries);
      if reply.Answered? {
        if reply.contentEncoding == Some("gzip") {
          var decompressed := gunzip(reply.body);
          if decompressed.Some? {
            return Ok(decompressed.value), sent;
          }
        } else {
          return Ok(reply.body), sent;
        }
      }
      retries := retries + 1;
    }
    return Err(Abort(SERVICE_UNAVAILABLE)), sent;
  }

  /** The whole of one `fetch_json` call: the credential after `authorize`,
      the result, and the requests sent to the API. */
  datatype FetchRun = FetchRun(cred: Auth.Credential, result: Result<Bytes>, sent: seq<Request>)

  function Fetched(cred: Auth.Credential, now: int, answers: seq<Auth.Exchange>, clientId: string,
                   id: string, t: UrlTemplate, replies: seq<Reply>, gunzip: Bytes -> Option<Bytes>): FetchRun
  {
    var auth := Auth.Authorized(cred, now, answers);
    if auth.outcome == Auth.Unavailable then FetchRun(auth.cred, Err(Abort(SERVICE_UNAVAILABLE)), [])
    else
      var r := Retrieve(BuildRequest(t, id, auth.cred.token, clientId), replies, gunzip, 0, []);
      FetchRun(auth.cred, r.result, r.sent)
  }

  /** `fetch_json(id, url_template)`, the credential being held by `store`. */
  method FetchJson(store: Auth.OAuthToken, now: int, answers: seq<Auth.Exchange>, clientId: string,
                   id: string, t: UrlTemplate, replies: seq<Reply>, gunzip: Bytes -> Option<Bytes>)
    returns (result: Result<Bytes>, sent: seq<Request>)
    modifies store
    ensures var run := Fetched(old(store.Held()), now, answers, clientId, id, t, replies, gunzip);
            store.Held() == run.cred && result == run.result && sent == run.sent
  {
    var outcome, _ := store.Authorize(now, answers);
    if outcome == Auth.Unavailable {
      return Err(Abort(SERVICE_UNAVAILABLE)), [];
    }
    var req := BuildRequest(t, id, store.token, clientId);
    result, sent := SendWithRetries(req, replies, gunzip);
  }

  /** Every request sent carries the URL for `id` and the bearer token that
      `authorize` left behind; there are never more than three of them. */
  lemma FetchSendsBearerToken(cred: Auth.Credential, now: int, answers: seq<Auth.Exchange>, clientId: string,
                              id: string, t: UrlTemplate, replies: seq<Reply>, gunzip: Bytes -> Option<Bytes>)
    ensures var run := Fetched(cred, now, answers, clientId, id, t, replies, gunzip);
            |run.sent| <= MAX_ATTEMPTS &&
            run.cred == Auth.Authorized(cred, now, answers).cred &&
            forall k :: 0 <= k < |run.sent| ==>
              run.sent[k].url == Url(t, id) && run.sent[k].authorization == "Bearer " + run.cred.token &&
              run.sent[k].clientId == clientId && run.sent[k].acceptEncoding == "gzip"
  {
  }

  /** `fetch_json` aborts with 503 exactly when `authorize` does (and then
      nothing is sent) or when none of the three replies yields a body. */
  lemma FetchFailsOnlyOnExhaustion(cred: Auth.Credential, now: int, answers: seq<Auth.Exchange>,
                                   clientId: string, id: string, t: UrlTemplate, replies: seq<Reply>,
                                   gunzip: Bytes -> Option<Bytes>)
    ensures var run := Fetched(cred, now, answers, clientId, id, t, replies, gunzip);
            var auth := Auth.Authorized(cred, now, answers);
            (run.result.Err? <==>
               auth.outcome == Auth.Unavailable ||
               forall k :: 0 <= k < MAX_ATTEMPTS ==> Payload(ReplyAt(replies, k), gunzip).None?) &&
            (run.result.Err? ==> run.result.failure == Abort(SERVICE_UNAVAILABLE)) &&
            (auth.outcome == Auth.Unavailable ==> run.sent == [])
  {
  }

  /** A body is returned decompressed exactly when its reply is labelled
      gzip, and raw otherwise; a gzip-labelled reply that does not decompress
      counts as a failed attempt. */
  lemma GzipDecidesDecoding(cred: Auth.Credential, now: int, answers: seq<Auth.Exchange>, clientId: string,
                            id: string, t: UrlTemplate, replies: seq<Reply>, gunzip: Bytes -> Option<Bytes>)
    ensures var run := Fetched(cred, now, answers, clientId, id, t, replies, gunzip);
            run.result.Ok? ==>
              var reply := ReplyAt(replies, |run.sent| - 1);
              reply.Answered? &&
              (reply.contentEncoding == Some("gzip") ==> gunzip(reply.body) == Some(run.result.value)) &&
              (reply.contentEncoding != Some("gzip") ==> run.result.value == reply.body)
  {
  }
}
