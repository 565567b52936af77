# TwitchToPodcastRSS: a Dafny model of the feed service's core

The service turns a Twitch channel's videos into a podcast RSS feed. This
project models the deterministic layer of `TwitchRSS/twitchrss.py` and proves
properties of it:

- **OAuth credential** (`authorize`). The two globals `TWITCH_OAUTH_TOKEN` and
  `TWITCH_OAUTH_EXPIRE_EPOCH` become the class `Auth.OAuthToken`. The token is
  kept while its expiry is at or after the current epoch second. Otherwise up
  to three client-credentials exchanges are tried, then the call aborts with
  503. The upstream is a sequence of exchange outcomes. An exchange can fail
  after the token was assigned but before `expires_in` was read; the model
  keeps that partial update.
- **Authenticated fetch** (`fetch_json`). The function renews the credential,
  fills the URL template with the id and sends `Authorization: Bearer <token>`.
  It makes at most three attempts and returns the body gunzipped exactly when
  `Content-Encoding` is `gzip`. Transport and decompression are parameters.
- **Routes and records**. The channel-name filter of `/vod/<channel>` and
  `/vodonly/<channel>`, the check on the user record (`extract_userid`) and
  the compression decision at the end of `get_inner`.
- **Feed construction** (`construct_rss`). Each video becomes an entry. Its
  duration "1h2m3s" is rewritten to "1:2:3". Its thumbnail template gets the
  width 512 and height 288 filled in. It gets an iTunes image only for `.jpg`
  or `.png`, and its description is HTML built around the video's own text.
  A video record missing a key aborts the whole feed with 404.

Files: `common.dfy` (bytes, `Option`, `Result`, failures), `text.dfy` (Python's
`in`, `startswith`/`endswith` and `str.replace`, with lemmas), `auth.dfy`,
`fetch.dfy`, `routes.dfy`, `feed.dfy`.

I/O is modelled as follows:
- The clock is an integer parameter `now`.
- The token endpoint is a `seq<Exchange>` and the Helix API a `seq<Reply>`. An
  attempt past the end of the sequence counts as a failed one.
- `gzip.decompress` is `gunzip: Bytes -> Option<Bytes>`, where `None` means it
  raised. `gzip.compress` is `compress: Bytes -> Bytes`.
- `get_audiostream_url` is `audioUrl: string -> string`.
- Decoded JSON objects are `map<string, string>`.

Three behaviours of the code are worth stating plainly:
- `authorize` keeps the token when `expiry >= now`, so an expiry equal to `now`
  still counts as valid.
- A video record missing a key is not skipped: the `KeyError` handler of
  `construct_rss` aborts the whole feed with 404.
- `twitchrss.py` has no transcoding and no working request coalescing; see
  "Left out".

## Model

| member | source | states |
|---|---|---|
| `Auth.Retry` | TwitchRSS/twitchrss.py:72-84 | The retry loop sends at most 3 exchanges. It ends Renewed at the first granted one: token = its access token, expiry = its lifetime + now, and none before it was granted. It ends Unavailable only after exactly 3 attempts with none granted, with the expiry unchanged. |
| `Auth.Authorized` | TwitchRSS/twitchrss.py:58-84 | `authorize` makes no request exactly when `expiry >= now`, and then returns with token and expiry unchanged. It never sends more than 3 exchanges. |
| `Auth.RenewedIffGranted` | TwitchRSS/twitchrss.py:72-84 | For an expired credential: renewed iff one of the first three exchanges is granted, and aborted with 503 iff none is. |
| `Auth.ExhaustedKeepsPartialToken` | TwitchRSS/twitchrss.py:76-84 | After three failed exchanges the expiry is the old one. The token is the last one assigned at line 77 before `int(r['expires_in'])` raised, or the old token if no exchange got that far. |
| `Auth.ReturnedCredentialIsCurrent` | TwitchRSS/twitchrss.py:62-80 | When `authorize` returns without aborting and no lifetime is negative, the held expiry is at or after `now`. |
| `Auth.OAuthToken.constructor` | TwitchRSS/twitchrss.py:45-46 | The globals start as the empty token with expiry 0. |
| `Auth.OAuthToken.Authorize` | TwitchRSS/twitchrss.py:58-84 | The loop that assigns the two fields in place leaves them, and returns the outcome and attempt count, exactly as `Authorized` specifies. This includes the partial token update. |
| `Fetch.Url` | TwitchRSS/twitchrss.py:154 | `url_template % id` starts with the text before `%s` and ends with the text after it. |
| `Fetch.UrlRoundTrip` | TwitchRSS/twitchrss.py:154 | The id can be read back from the URL it was put into. |
| `Fetch.BuildRequest` | TwitchRSS/twitchrss.py:154-160 | The request carries `Authorization: "Bearer " + token`, the client id and `Accept-Encoding: gzip`, and its URL encodes the id. |
| `Fetch.Payload` | TwitchRSS/twitchrss.py:164-169 | A failed attempt yields nothing. A response not labelled `gzip` yields its raw body. |
| `Fetch.Retrieve` | TwitchRSS/twitchrss.py:161-173 | At most 3 requests, all identical. The result is the payload of the first attempt that yields one, with none before it yielding one. Otherwise it is 503 after exactly 3 requests. |
| `Fetch.SendWithRetries` | TwitchRSS/twitchrss.py:161-173 | The `while retries < 3` loop returns the result and sent requests that `Retrieve` specifies. |
| `Fetch.FetchJson` | TwitchRSS/twitchrss.py:152-173 | `fetch_json` updates the credential as `authorize` does. It then sends the requests and returns the result that `Fetched` specifies. |
| `Fetch.FetchSendsBearerToken` | TwitchRSS/twitchrss.py:153-160 | Every request sent carries the URL for the id and `"Bearer "` plus the token that `authorize` left behind. There are never more than 3 of them. |
| `Fetch.FetchFailsOnlyOnExhaustion` | TwitchRSS/twitchrss.py:153-173 | `fetch_json` aborts with 503 iff `authorize` aborts (then nothing is sent) or none of the first three replies yields a body. |
| `Fetch.GzipDecidesDecoding` | TwitchRSS/twitchrss.py:166-169 | A returned body is the gunzipped response body when `Content-Encoding` equals `gzip`, and the raw body otherwise. |
| `Routes.ChannelFilterAdmits` | TwitchRSS/twitchrss.py:42 | `CHANNEL_FILTER.match` admits exactly the valid names and the valid names followed by one newline. |
| `Routes.FilterAdmitsTrailingNewline` | TwitchRSS/twitchrss.py:42 | "ab\n" passes the filter but is not a valid channel name. |
| `Routes.RouteAsWritten` | TwitchRSS/twitchrss.py:98-111 | As written, `/vod` and `/vodonly` call `get_inner` with the channel unchanged iff `CHANNEL_FILTER.match` succeeds, with `add_live` true only for `/vod`; otherwise 404. |
| `Routes.RoutesAgreeOnNames` | TwitchRSS/twitchrss.py:98-111 | The intended dispatch (`Routes.Route`, on the corrected filter): `/vod` and `/vodonly` answer 404 on the same names, exactly those that are not 2 to 25 characters from `[A-Za-z0-9_]`. Other names reach `get_inner` unchanged, with `add_live` true only for `/vod`. |
| `Routes.RoutesDifferOnTrailingNewline` | TwitchRSS/twitchrss.py:98-111 | The routes as written and as intended differ exactly on a valid name followed by one newline. The written routes pass it to `get_inner`; the intended ones answer 404. |
| `Routes.ExtractUserid` | TwitchRSS/twitchrss.py:176-185 | Returns (display_name, id, profile_image_url) iff all three keys exist and display name and id are non-empty. A missing key raises KeyError. Otherwise it aborts with 404. |
| `Routes.Respond` | TwitchRSS/twitchrss.py:131-137 | The response is always `text/xml`. It carries `Content-Encoding: gzip` with a compressed body iff "gzip" is a substring of `Accept-Encoding` (absent = ""); otherwise the body is the feed unchanged. |
| `Routes.RespondExamples` | TwitchRSS/twitchrss.py:133-135 | "gzip, deflate, br" gets a compressed body; a request without the header gets the plain feed. |
| `Text.ReplaceAllSkipsPrefix` | TwitchRSS/twitchrss.py:244 | `str.replace` copies unchanged a prefix that lacks the pattern's first character and replaces in the rest. |
| `Text.ReplaceAllIdentity` | TwitchRSS/twitchrss.py:244 | `str.replace` leaves a string without the pattern unchanged. |
| `Text.ReplaceAllRemoves` | TwitchRSS/twitchrss.py:244 | After `str.replace` by text sharing no character with the pattern, the pattern does not occur. |
| `Text.ReplaceAllKeepsAbsent` | TwitchRSS/twitchrss.py:244 | `str.replace` by text sharing no character with `q` cannot create an occurrence of `q`. |
| `Text.ReplaceAllKeepsSuffix` | TwitchRSS/twitchrss.py:244 | `str.replace` leaves untouched a suffix without the pattern's last character. |
| `Feed.ItunesDurationIsRewrite` | TwitchRSS/twitchrss.py:252 | `re.sub('[hm]', ':', d).replace('s', '')` equals the character-by-character rewrite: `h` and `m` become `:`, `s` is dropped, and every other character is kept. |
| `Feed.DurationRewriteAppend` | TwitchRSS/twitchrss.py:252 | The rewrite distributes over concatenation, so the order of the kept characters is preserved. |
| `Feed.DurationRewriteLetters` | TwitchRSS/twitchrss.py:252 | The output holds no `h`, `m` or `s`. Any other non-colon character occurs in it iff it occurs in the input. |
| `Feed.DurationRewritePlain` | TwitchRSS/twitchrss.py:252 | A duration without unit letters is unchanged. |
| `Feed.ItunesDurationOfHelixForm` | TwitchRSS/twitchrss.py:252 | For digit strings H, M, S: "HhMmSs" becomes "H:M:S". |
| `Feed.ItunesDurationExample` | TwitchRSS/twitchrss.py:252 | "1h2m3s" becomes "1:2:3". |
| `Feed.ThumbnailSizes` | TwitchRSS/twitchrss.py:244 | For a template `a%{width}b%{height}c` whose other parts hold no `%`, the thumbnail is `a512b288c`: the width placeholder becomes 512, the height placeholder 288, and the rest is kept in place. |
| `Feed.ThumbnailFillsPlaceholders` | TwitchRSS/twitchrss.py:244 | After the substitution neither `%{width}` nor `%{height}` occurs in the thumbnail URL. |
| `Feed.ThumbnailKeepsPlainUrl` | TwitchRSS/twitchrss.py:244 | A thumbnail URL without placeholders is used unchanged. |
| `Feed.ThumbnailKeepsExtension` | TwitchRSS/twitchrss.py:244 | A template ending in `.jpg` or `.png` still ends in it after the substitution. |
| `Feed.ItunesImage` | TwitchRSS/twitchrss.py:254-255 | The iTunes image is set iff the thumbnail ends in `.jpg` or `.png`, and it is then the thumbnail. |
| `Feed.ItunesImageOfTemplate` | TwitchRSS/twitchrss.py:244-255 | A thumbnail template ending in `.jpg` or `.png` always yields an iTunes image. |
| `Feed.DescriptionHtml` | TwitchRSS/twitchrss.py:245-250 | The description starts with the anchor/img markup. It is exactly that markup iff the video's description is empty; otherwise it is the markup, then `<br/>`, then the video's description. |
| `Feed.DescriptionKeepsText` | TwitchRSS/twitchrss.py:245-250 | Different video descriptions of the same video give different entry descriptions. |
| `Feed.EntryOf` | TwitchRSS/twitchrss.py:209-262 | The entry's guid is the video id, its title the video title and its link the video URL. Its enclosure is the audio URL resolved for that link. Its description is `DescriptionHtml` of the link, the filled-in thumbnail and the video description. Its author is the channel name and its duration the rewritten duration. Its image is `ItunesImage` of the filled-in thumbnail: set iff that ends in `.jpg` or `.png`. |
| `Feed.Entries` | TwitchRSS/twitchrss.py:206-265 | Succeeds iff every video record has all the keys the loop reads, with one entry per video in order. Otherwise the whole feed aborts with 404; no record is skipped. |
| `Feed.ConstructRss` | TwitchRSS/twitchrss.py:188-268 | The loop over the videos yields the channel title, description and icon and the entries of `Entries`. It aborts with 404 iff some record lacks a key. |

## Findings

| source | as written | input that shows it | evidently intended | confidence | as-written member | corrected member |
|---|---|---|---|---|---|---|
| TwitchRSS/twitchrss.py:42 | `re.compile("^[a-zA-Z0-9_]{2,25}$").match(channel)`. Without MULTILINE, Python's `$` also matches just before a final newline. | channel `"ab\n"` (path `/vod/ab%0A`) passes the filter and reaches `get_inner`, where 404 was meant. `USERID_URL_TEMPLATE` ends in `%s`, so the newline ends the URL; `urllib.request.Request` strips surrounding whitespace from the URL, so the lookup is for `login=ab`. The client then gets channel "ab"'s feed, or a 500 from `['data'][0]` (line 123) if no such user exists. | Admit only names of 2 to 25 characters from `[A-Za-z0-9_]` (`fullmatch`, or `\Z` in place of `$`) | medium; not executed | `Routes.FilterAdmitsTrailingNewline` (on `Routes.ChannelFilterMatch`) | `Routes.RoutesAgreeOnNames` (on `Routes.ValidChannel`, used by `Routes.Route`) |

## Left out

- `get_audiostream_url` (lines 88-95) is a call into streamlink. It is the total parameter `audioUrl`. Its error path is not modelled: it logs `stream_url` before it is bound and so raises `UnboundLocalError`. That error escapes the `except KeyError` at line 263, so one video without an audio stream fails the whole feed with 500.
- `Feed.Entries`, `Feed.ConstructRss`: "succeeds iff every record has its keys" holds only because `audioUrl` is total; in the source a failed stream lookup also fails the feed, as above.
- `authorize` and `fetch_json` are modelled one call at a time. Flask may serve requests concurrently, and each may then renew the unlocked globals; interleavings of two calls are not modelled.
- The per-link queues around enclosure resolution (lines 223-239) exist only for concurrency, which is not modelled. They also never delete an entry, because line 238 compares the method `q.qsize` with 0.
- Rate limiting and caching are library behaviour driven by wall-clock time. The rate limit is 800 calls per 60 s on `fetch_json`. The caches are: user ids, 3000 entries for 24 h; video lists, 500 for 10 min; audio URLs, 3000 for 24 h.
- The `get_inner` glue is not modelled: the cached `fetch_userid`/`fetch_vods`, JSON decoding, the 404 on an empty body, and `['data'][0]`, which raises `IndexError` for an unknown login. Its last step (lines 131-137) is `Routes.Respond`.
- Feed serialisation by feedgen is not modelled: the XML, the constant channel fields (id, link, author, iTunes flags) and `pubDate`/`updated`. `created_at` is kept as the string received. Its `strptime` parsing, which raises a `ValueError` that is not caught, is not modelled.
- The `add_live` flag is carried by `Routes.Route` but has no effect in `construct_rss`, whose live-stream branch is commented out.
- Exceptions other than a missing key, such as a non-string JSON value, are not modelled: decoded JSON objects are maps from strings to strings. Truthiness of a value is non-emptiness.
- Flask routing, `abort`, logging, the index page and the startup checks on environment variables are not modelled. The client id is a parameter.
- `Auth.Authorized`: reads the clock once. Lines 62 and 78 each call `round(time.time())`, and time passing between them (up to the 3-second timeouts) is not modelled.
- `Feed.ThumbnailSizes`: gives the filled-in values for templates with one placeholder of each kind, width first, and no other `%`; Helix thumbnail URLs have that form. `Feed.ThumbnailFillsPlaceholders` covers every template.
- `Text.ReplaceAll`: requires a non-empty pattern. Python's `str.replace` also accepts an empty one, but every call site here passes a non-empty literal.
- `TwitchRSS/TTPstreamlink/plugins/TTPTwitch.py` only injects a client id into streamlink's Twitch plugin and has no logic of its own.
- Transcoding sessions and byte-range proxying are not part of this source file, so nothing of them is modelled.
