/** The HTTP layer of the feed service: the channel-name filter of the
    `/vod/<channel>` and `/vodonly/<channel>` routes, the check on the user
    record (`extract_userid`) and the compression decision of `get_inner`. */
module Routes {
  import opened Common
  import opened Text

  const MIN_CHANNEL_LENGTH := 2
  const MAX_CHANNEL_LENGTH := 25

  /** A character of the class `[a-zA-Z0-9_]`. */
  predicate IsChannelChar(c: char)
  {
    ('a' <= c <= 'z') || ('A' <= c <= 'Z') || ('0' <= c <= '9') || c == '_'
  }

  predicate AllChannelChars(s: string)
  {
    forall i :: 0 <= i < |s| ==> IsChannelChar(s[i])
  }

  /** Python's `$` without MULTILINE: the end of the string, or just before a
      newline that ends it. */
  predicate DollarMatchesAt(s: string, k: nat)
  {
    k == |s| || (k + 1 == |s| && s[k] == '\n')
  }

  /** `CHANNEL_FILTER.match(name)` for `^[a-zA-Z0-9_]{2,25}$`, as Python's
      `re` reads it: some run of 2 to 25 class characters from the start,
      followed by a position where `$` matches. */
  predicate ChannelFilterMatch(name: string)
  {
    exists k :: MIN_CHANNEL_LENGTH <= k <= MAX_CHANNEL_LENGTH && k <= |name| &&
                AllChannelChars(name[..k]) && DollarMatchesAt(name, k)
  }

  /** The names the filter is evidently meant to admit: 2 to 25 characters,
      all from the class. */
  predicate ValidChannel(name: string)
  {
    MIN_CHANNEL_LENGTH <= |name| <= MAX_CHANNEL_LENGTH && AllChannelChars(name)
  }

  /** The filter as written admits the valid names and, besides them, each
      valid name followed by one newline. */
  lemma ChannelFilterAdmits(name: string)
    ensures ChannelFilterMatch(name) <==>
              ValidChannel(name) ||
              (|name| > 0 && name[|name| - 1] == '\n' && ValidChannel(name[..|name| - 1]))
  {
    if ValidChannel(name) {
      assert name[..|name|] == name;
      assert DollarMatchesAt(name, |name|);
    } else if |name| > 0 && name[|name| - 1] == '\n' && ValidChannel(name[..|name| - 1]) {
      assert DollarMatchesAt(name, |name| - 1);
    }
    if ChannelFilterMatch(name) {
      var k :| MIN_CHANNEL_LENGTH <= k <= MAX_CHANNEL_LENGTH && k <= |name| &&
               AllChannelChars(name[..k]) && DollarMatchesAt(name, k);
      if k == |name| {
        assert name[..k] == name;
      }
    }
  }

  /** A name the routes are meant to refuse that the filter lets through. */
  lemma FilterAdmitsTrailingNewline()
    ensures ChannelFilterMatch("ab\n") && !ValidChannel("ab\n")
  {
    assert "ab\n"[..2] == "ab";
    assert DollarMatchesAt("ab\n", 2);
  }

  /** The two feed routes: `/vod` includes the live stream, `/vodonly` does
      not. */
  datatype FeedRoute = Vod | VodOnly

  /** Where a route sends a request for `channel`. */
  datatype Dispatch = NotFound | GetInner(channel: string, addLive: bool)

  /** `vod(channel)` and `vodonly(channel)`, with the filter applied as
      intended (`ValidChannel`). */
  function Route(route: FeedRoute, channel: string): (d: Dispatch)
  {
    if ValidChannel(channel) then GetInner(channel, route == Vod) else NotFound
  }

  /** `vod(channel)` and `vodonly(channel)` as written: the request reaches
      `get_inner` whenever `CHANNEL_FILTER.match(channel)` succeeds. */
  function RouteAsWritten(route: FeedRoute, channel: string): (d: Dispatch)
    ensures d.GetInner? <==> ChannelFilterMatch(channel)
    ensures d.GetInner? ==> d.channel == channel && (d.addLive <==> route == Vod)
  {
    if ChannelFilterMatch(channel) then GetInner(channel, route == Vod) else NotFound
  }

  /** The routes as written and as intended part only on a valid name
      followed by one newline, which the written filter hands to
      `get_inner` and the intended one refuses. */
  lemma RoutesDifferOnTrailingNewline(route: FeedRoute, channel: string)
    ensures RouteAsWritten(route, channel) != Route(route, channel) <==>
              |channel| > 0 && channel[|channel| - 1] == '\n' && ValidChannel(channel[..|channel| - 1])
    ensures RouteAsWritten(route, channel) != Route(route, channel) ==>
              Route(route, channel) == NotFound &&
              RouteAsWritten(route, channel) == GetInner(channel, route == Vod)
  {
    ChannelFilterAdmits(channel);
    if |channel| > 0 && channel[|channel| - 1] == '\n' {
      assert !IsChannelChar(channel[|channel| - 1]);
      assert !ValidChannel(channel);
    }
  }

  /** Both routes answer 404 on exactly the same names: those that are not
      2 to 25 class characters; the others reach `get_inner` unchanged, with
      the live stream only for `/vod`. */
  lemma RoutesAgreeOnNames(channel: string)
    ensures Route(Vod, channel).NotFound? == Route(VodOnly, channel).NotFound?
    ensures Route(Vod, channel).NotFound? <==>
              !(2 <= |channel| <= 25 && forall i :: 0 <= i < |channel| ==> IsChannelChar(channel[i]))
    ensures Route(Vod, channel) == NotFound || Route(Vod, channel) == GetInner(channel, true)
    ensures Route(VodOnly, channel) == NotFound || Route(VodOnly, channel) == GetInner(channel, false)
  {
  }

  /** A decoded user record of the Helix `users` endpoint. */
  type UserInfo = map<string, string>

  /** `extract_userid(user_info)`: (display name, id, profile image URL). The
      three lookups run first, so a missing key raises `KeyError` (which no
      caller catches); an empty display name or id aborts with 404. */
  function ExtractUserid(info: UserInfo): (r: Result<(string, string, string)>)
    ensures r.Ok? <==>
              "id" in info && "display_name" in info && "profile_image_url" in info &&
              info["display_name"] != "" && info["id"] != ""
    ensures r.Ok? ==> r.value == (info["display_name"], info["id"], info["profile_image_url"])
    ensures r.Err? && r.failure.KeyError? <==>
              !("id" in info && "display_name" in info && "profile_image_url" in info)
    ensures r.Err? && !r.failure.KeyError? ==> r.failure == Abort(NOT_FOUND)
  {
    if "id" !in info then Err(KeyError("id"))
    else if "display_name" !in info then Err(KeyError("display_name"))
    else if "profile_image_url" !in info then Err(KeyError("profile_image_url"))
    else
      var userid := info["id"];
      var username := info["display_name"];
      var icon := info["profile_image_url"];
      if username != "" && userid != "" then Ok((username, userid, icon)) else Err(Abort(NOT_FOUND))
  }

  /** The feed response of `get_inner`: its headers and body. */
  datatype FeedResponse = FeedResponse(headers: map<string, string>, body: Bytes)

  /** The end of `get_inner`: the body is gzip-compressed and marked so when
      "gzip" occurs anywhere in the request's `Accept-Encoding` (absent counts
      as empty). `compress` stands for `gzip.compress`. */
  function Respond(rss: Bytes, acceptEncoding: Option<string>, compress: Bytes -> Bytes): (resp: FeedResponse)
    ensures "Content-Type" in resp.headers && resp.headers["Content-Type"] == "text/xml"
    ensures "Content-Encoding" in resp.headers <==>
              acceptEncoding.Some? && Contains(acceptEncoding.value, "gzip")
    ensures "Content-Encoding" in resp.headers ==>
              resp.headers["Content-Encoding"] == "gzip" && resp.body == compress(rss)
    ensures "Content-Encoding" !in resp.headers ==> resp.body == rss
    ensures resp.headers.Keys <= {"Content-Type", "Content-Encoding"}
  {
    var offered := match acceptEncoding case Some(v) => v case None => "";
    var headers := map["Content-Type" := "text/xml"];
    if Contains(offered, "gzip") then
      FeedResponse(headers["Content-Encoding" := "gzip"], compress(rss))
    else
      FeedResponse(headers, rss)
  }

  /** What a browser or podcast client typically sends decides the matter:
      "gzip, deflate, br" gets a compressed feed, a missing header does not. */
  lemma RespondExamples(rss: Bytes, compress: Bytes -> Bytes)
    ensures Respond(rss, Some("gzip, deflate, br"), compress).body == compress(rss)
    ensures Respond(rss, None, compress) == FeedResponse(map["Content-Type" := "text/xml"], rss)
  {
    assert OccursAt("gzip, deflate, br", "gzip", 0);
  }
}
