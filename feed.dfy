/** Building the podcast feed from the Helix video list (`construct_rss` in
    twitchrss.py): one entry per video, its duration rewritten for iTunes,
    its thumbnail filled in, and its description assembled as HTML. */
module Feed {
  import opened Common
  import opened Text

  // ---------------------------------------------------------------------
  // Duration: `re.sub('[hm]', ':', d).replace('s', '')`

  /** `re.sub('[hm]', ':', d)`: every `h` and `m` becomes a colon. */
  function UnitsToColons(d: string): (r: string)
    ensures |r| == |d|
  {
    seq(|d|, i requires 0 <= i < |d| => if d[i] == 'h' || d[i] == 'm' then ':' else d[i])
  }

  /** The iTunes duration of a Helix duration such as "1h2m3s". */
  function ItunesDuration(d: string): string
  {
    ReplaceAll(UnitsToColons(d), "s", "")
  }

  /** What one character of a Helix duration becomes. */
  function UnitGlyph(c: char): string
  {
    if c == 'h' || c == 'm' then ":" else if c == 's' then "" else [c]
  }

  /** A character-by-character reading of the rewrite, independent of the
      two-pass form the source uses. */
  function DurationRewrite(d: string): string
  {
    if d == [] then [] else UnitGlyph(d[0]) + DurationRewrite(d[1..])
  }

  /** The two passes of the source amount to the character-by-character
      rewrite. */
  lemma {:induction false} ItunesDurationIsRewrite(d: string)
    ensures ItunesDuration(d) == DurationRewrite(d)
  {
    if d != [] {
      var c := UnitsToColons(d);
      assert c == UnitsToColons([d[0]]) + UnitsToColons(d[1..]);
      ItunesDurationIsRewrite(d[1..]);
      assert StartsWith(c, "s") <==> c[0] == 's';
      assert c[1..] == UnitsToColons(d[1..]);
    }
  }

  /** The rewrite distributes over concatenation: each character is rewritten
      on its own and the order of what remains is kept. */
  lemma {:induction false} DurationRewriteAppend(a: string, b: string)
    ensures DurationRewrite(a + b) == DurationRewrite(a) + DurationRewrite(b)
  {
    if a != [] {
      assert (a + b)[0] == a[0] && (a + b)[1..] == a[1..] + b;
      DurationRewriteAppend(a[1..], b);
      calc {
        DurationRewrite(a + b);
        UnitGlyph(a[0]) + DurationRewrite(a[1..] + b);
        UnitGlyph(a[0]) + (DurationRewrite(a[1..]) + DurationRewrite(b));
        (UnitGlyph(a[0]) + DurationRewrite(a[1..])) + DurationRewrite(b);
      }
    } else {
      assert a + b == b;
    }
  }

  /** The result holds no unit letter, and every other character that is not
      a colon occurs in it exactly when it occurs in the input. */
  lemma {:induction false} DurationRewriteLetters(d: string)
    ensures forall i :: 0 <= i < |DurationRewrite(d)| ==>
              var c := DurationRewrite(d)[i]; c != 'h' && c != 'm' && c != 's'
    ensures forall c :: c != ':' && c != 'h' && c != 'm' && c != 's' ==>
              (c in DurationRewrite(d) <==> c in d)
  {
    if d != [] {
      DurationRewriteLetters(d[1..]);
      assert d == [d[0]] + d[1..];
    }
  }

  /** A duration without unit letters is left as it is. */
  lemma {:induction false} DurationRewritePlain(d: string)
    requires forall i :: 0 <= i < |d| ==> d[i] != 'h' && d[i] != 'm' && d[i] != 's'
    ensures DurationRewrite(d) == d
  {
    if d != [] {
      DurationRewritePlain(d[1..]);
    }
  }

  /** The Helix form "<H>h<M>m<S>s" becomes "<H>:<M>:<S>". */
  lemma ItunesDurationOfHelixForm(hours: string, minutes: string, seconds: string)
    requires forall i :: 0 <= i < |hours| ==> '0' <= hours[i] <= '9'
    requires forall i :: 0 <= i < |minutes| ==> '0' <= minutes[i] <= '9'
    requires forall i :: 0 <= i < |seconds| ==> '0' <= seconds[i] <= '9'
    ensures ItunesDuration(hours + "h" + minutes + "m" + seconds + "s") == hours + ":" + minutes + ":" + seconds
  {
    DurationRewritePlain(hours);
    DurationRewritePlain(minutes);
    DurationRewritePlain(seconds);
    var h := hours + "h";
    DurationRewriteWithUnit(hours, 'h');
    var hm := h + minutes;
    DurationRewriteAppend(h, minutes);
    var hmm := hm + "m";
    DurationRewriteWithUnit(hm, 'm');
    var hms := hmm + seconds;
    DurationRewriteAppend(hmm, seconds);
    DurationRewriteWithUnit(hms, 's');
    ItunesDurationIsRewrite(hms + "s");
  }

  /** Appending one unit letter appends its glyph. */
  lemma DurationRewriteWithUnit(d: string, unit: char)
    ensures DurationRewrite(d + [unit]) == DurationRewrite(d) + UnitGlyph(unit)
  {
    DurationRewriteAppend(d, [unit]);
    assert DurationRewrite([unit]) == UnitGlyph(unit) + DurationRewrite([]);
  }

  lemma ItunesDurationExample()
    ensures ItunesDuration("1h2m3s") == "1:2:3"
  {
    ItunesDurationOfHelixForm("1", "2", "3");
    assert "1" + "h" + "2" + "m" + "3" + "s" == "1h2m3s";
    assert "1" + ":" + "2" + ":" + "3" == "1:2:3";
  }

  // ---------------------------------------------------------------------
  // Thumbnail, iTunes image and description

  const THUMBNAIL_WIDTH := "512"
  const THUMBNAIL_HEIGHT := "288"

  /** `thumbnail_url.replace("%{width}", "512").replace("%{height}", "288")`. */
  function Thumbnail(template: string): string
  {
    ReplaceAll(ReplaceAll(template, "%{width}", THUMBNAIL_WIDTH), "%{height}", THUMBNAIL_HEIGHT)
  }

  /** No placeholder survives the substitution. */
  lemma ThumbnailFillsPlaceholders(template: string)
    ensures !Contains(Thumbnail(template), "%{width}") && !Contains(Thumbnail(template), "%{height}")
  {
    var sized := ReplaceAll(template, "%{width}", THUMBNAIL_WIDTH);
    ReplaceAllRemoves(template, "%{width}", THUMBNAIL_WIDTH);
    ReplaceAllKeepsAbsent(sized, "%{height}", THUMBNAIL_HEIGHT, "%{width}");
    ReplaceAllRemoves(sized, "%{height}", THUMBNAIL_HEIGHT);
  }

  /** The width placeholder becomes 512 and the height placeholder 288, the
      rest of the template being kept around them. */
  lemma ThumbnailSizes(a: string, b: string, c: string)
    requires '%' !in a && '%' !in b && '%' !in c
    ensures Thumbnail(a + "%{width}" + b + "%{height}" + c) == a + "512" + b + "288" + c
  {
    WidthPass(a, b, c);
    var x := a + "512" + b;
    assert '%' !in x;
    HeightPass(x, c);
  }

  /** The first replacement fills the width and leaves the height placeholder. */
  lemma WidthPass(a: string, b: string, c: string)
    requires '%' !in a && '%' !in b && '%' !in c
    ensures ReplaceAll(a + "%{width}" + b + "%{height}" + c, "%{width}", THUMBNAIL_WIDTH)
            == a + "512" + b + "%{height}" + c
  {
    var w, h := "%{width}", "%{height}";
    var hc := h + c;
    var bhc := b + hc;
    var wbhc := w + bhc;
    Nest(a, w, b, h, c);
    ReplaceAllSkipsPrefix(a, wbhc, w, THUMBNAIL_WIDTH);
    ReplaceAllAtStart(bhc, w, THUMBNAIL_WIDTH);
    ReplaceAllSkipsPrefix(b, hc, w, THUMBNAIL_WIDTH);
    HeightSurvivesWidth(c);
    Nest(a, THUMBNAIL_WIDTH, b, h, c);
  }

  /** Concatenation regrouped to the right. */
  lemma Nest(a: string, w: string, b: string, h: string, c: string)
    ensures a + w + b + h + c == a + (w + (b + (h + c)))
  {
  }

  /** The height placeholder is not an occurrence of the width placeholder. */
  lemma HeightSurvivesWidth(c: string)
    requires '%' !in c
    ensures ReplaceAll("%{height}" + c, "%{width}", THUMBNAIL_WIDTH) == "%{height}" + c
  {
    var w, h := "%{width}", "%{height}";
    var hc := h + c;
    var tail := hc[1..];
    assert tail == h[1..] + c;
    assert '%' !in tail;
    assert !StartsWith(hc, w) by { assert hc[2] != w[2]; }
    ReplaceAllSkipsPrefix(tail, [], w, THUMBNAIL_WIDTH);
    assert tail + [] == tail;
    assert [hc[0]] + tail == hc;
  }

  /** The second replacement fills the height. */
  lemma HeightPass(x: string, c: string)
    requires '%' !in x && '%' !in c
    ensures ReplaceAll(x + "%{height}" + c, "%{height}", THUMBNAIL_HEIGHT) == x + "288" + c
  {
    var h := "%{height}";
    var hc := h + c;
    assert x + h + c == x + hc;
    ReplaceAllSkipsPrefix(x, hc, h, THUMBNAIL_HEIGHT);
    ReplaceAllAtStart(c, h, THUMBNAIL_HEIGHT);
    ReplaceAllSkipsPrefix(c, [], h, THUMBNAIL_HEIGHT);
    assert c + [] == c;
  }

  /** A URL without placeholders is used as it is. */
  lemma ThumbnailKeepsPlainUrl(url: string)
    requires !Contains(url, "%{width}") && !Contains(url, "%{height}")
    ensures Thumbnail(url) == url
  {
    ReplaceAllIdentity(url, "%{width}", THUMBNAIL_WIDTH);
    ReplaceAllIdentity(url, "%{height}", THUMBNAIL_HEIGHT);
  }

  /** The substitution never touches the file extension. */
  lemma ThumbnailKeepsExtension(stem: string, extension: string)
    requires extension == ".jpg" || extension == ".png"
    ensures EndsWith(Thumbnail(stem + extension), extension)
  {
    ReplaceAllKeepsSuffix(stem, extension, "%{width}", THUMBNAIL_WIDTH);
    var sized := ReplaceAll(stem, "%{width}", THUMBNAIL_WIDTH);
    ReplaceAllKeepsSuffix(sized, extension, "%{height}", THUMBNAIL_HEIGHT);
    var r := ReplaceAll(sized, "%{height}", THUMBNAIL_HEIGHT) + extension;
    assert r[|r| - |extension|..] == extension;
  }

  /** The entry's iTunes image: the thumbnail, set only when it ends in `.jpg`
      or `.png`. */
  function ItunesImage(thumb: string): (image: Option<string>)
    ensures image.Some? <==> EndsWith(thumb, ".jpg") || EndsWith(thumb, ".png")
    ensures image.Some? ==> image.value == thumb
  {
    if EndsWith(thumb, ".jpg") || EndsWith(thumb, ".png") then Some(thumb) else None
  }

  /** A Helix thumbnail template ending in `.jpg` or `.png` always yields an
      iTunes image. */
  lemma ItunesImageOfTemplate(stem: string, extension: string)
    requires extension == ".jpg" || extension == ".png"
    ensures ItunesImage(Thumbnail(stem + extension)) == Some(Thumbnail(stem + extension))
  {
    ThumbnailKeepsExtension(stem, extension);
  }

  /** `"<a href=\"%s\"><img src=\"%s\" /></a>" % (link, thumb)`. */
  function Anchor(link: string, thumb: string): string
  {
    "<a href=\"" + link + "\"><img src=\"" + thumb + "\" /></a>"
  }

  /** The entry's description: the anchor, then `<br/>` and the video's own
      description when that is not empty. */
  function DescriptionHtml(link: string, thumb: string, text: string): (html: string)
    ensures StartsWith(html, Anchor(link, thumb))
    ensures html == Anchor(link, thumb) <==> text == ""
    ensures text != "" ==> html == Anchor(link, thumb) + "<br/>" + text
  {
    Anchor(link, thumb) + (if text != "" then "<br/>" + text else "")
  }

  /** The video's description can be read back from the entry's: no two
      descriptions of the same video give the same HTML. */
  lemma DescriptionKeepsText(link: string, thumb: string, text1: string, text2: string)
    requires DescriptionHtml(link, thumb, text1) == DescriptionHtml(link, thumb, text2)
    ensures text1 == text2
  {
    var a := Anchor(link, thumb);
    var h := DescriptionHtml(link, thumb, text1);
    if text1 != "" && text2 != "" {
      assert h[|a| + 5..] == text1;
      assert h[|a| + 5..] == text2;
    }
  }

  // ---------------------------------------------------------------------
  // Entries and the feed

  /** A decoded video record of the Helix `videos` endpoint. */
  type Vod = map<string, string>

  /** Every key the loop body looks up. */
  predicate HasVodKeys(vod: Vod)
  {
    "id" in vod && "url" in vod && "title" in vod && "thumbnail_url" in vod &&
    "description" in vod && "created_at" in vod && "duration" in vod
  }

  /** One feed item. `published` is `created_at` as received: its parsing is
      not modelled. */
  datatype Entry = Entry(
    guid: string,
    title: string,
    link: string,
    enclosure: string,
    description: string,
    duration: string,
    author: string,
    image: Option<string>,
    published: string)

  /** The item the loop body adds for `vod`; `audioUrl` stands for
      `get_audiostream_url`. */
  function EntryOf(channelName: string, vod: Vod, audioUrl: string -> string): (e: Entry)
    requires HasVodKeys(vod)
    ensures e.guid == vod["id"] && e.link == vod["url"] && e.author == channelName
    ensures e.duration == DurationRewrite(vod["duration"])
    ensures e.title == vod["title"] && e.enclosure == audioUrl(vod["url"])
    ensures e.description == DescriptionHtml(vod["url"], Thumbnail(vod["thumbnail_url"]), vod["description"])
    ensures e.image == ItunesImage(Thumbnail(vod["thumbnail_url"]))
    ensures e.image.Some? ==> e.image.value == Thumbnail(vod["thumbnail_url"])
  {
    var link := vod["url"];
    var thumb := Thumbnail(vod["thumbnail_url"]);
    ItunesDurationIsRewrite(vod["duration"]);
    Entry(
      vod["id"],
      vod["title"],
      link,
      audioUrl(link),
      DescriptionHtml(link, thumb, vod["description"]),
      ItunesDuration(vod["duration"]),
      channelName,
      ItunesImage(thumb),
      vod["created_at"])
  }

  /** The entries of the feed, or the abort that a missing key causes: the
      `KeyError` handler stops the whole feed with 404 instead of skipping the
      record. */
  function Entries(channelName: string, vods: seq<Vod>, audioUrl: string -> string): (r: Result<seq<Entry>>)
    ensures r.Ok? <==> forall i :: 0 <= i < |vods| ==> HasVodKeys(vods[i])
    ensures r.Err? ==> r.failure == Abort(NOT_FOUND)
    ensures r.Ok? ==> (|r.value| == |vods| &&
              forall i :: 0 <= i < |vods| ==> r.value[i] == EntryOf(channelName, vods[i], audioUrl))
  {
    if vods == [] then Ok([])
    else if !HasVodKeys(vods[0]) then Err(Abort(NOT_FOUND))
    else match Entries(channelName, vods[1..], audioUrl)
      case Ok(rest) => Ok([EntryOf(channelName, vods[0], audioUrl)] + rest)
      case Err(f) => Err(f)
  }

  /** The entries are determined item by item. */
  lemma EntriesAreTheAdded(channelName: string, vods: seq<Vod>, audioUrl: string -> string, entries: seq<Entry>)
    requires forall i :: 0 <= i < |vods| ==> HasVodKeys(vods[i])
    requires |entries| == |vods|
    requires forall i :: 0 <= i < |vods| ==> entries[i] == EntryOf(channelName, vods[i], audioUrl)
    ensures Entries(channelName, vods, audioUrl) == Ok(entries)
  {
    var r := Entries(channelName, vods, audioUrl);
    assert r.Ok?;
    assert r.value == entries;
  }

  /** The channel-level part of the feed and its items. */
  datatype Podcast = Podcast(title: string, description: string, image: string, entries: seq<Entry>)

  function ChannelTitle(displayName: string): string
  {
    displayName + "'s Twitch video RSS"
  }

  function ChannelDescription(displayName: string): string
  {
    "The RSS Feed of " + displayName + "'s videos on Twitch"
  }

  /** `construct_rss`: sets the channel fields, then adds one entry per video
      in order; a video missing a key aborts the whole feed with 404. */
  method ConstructRss(channelName: string, vods: seq<Vod>, displayName: string, icon: string,
                      audioUrl: string -> string)
    returns (r: Result<Podcast>)
    ensures r.Ok? <==> forall i :: 0 <= i < |vods| ==> HasVodKeys(vods[i])
    ensures r.Err? ==> r.failure == Abort(NOT_FOUND)
    ensures r.Ok? ==>
              r.value.title == ChannelTitle(displayName) &&
              r.value.description == ChannelDescription(displayName) &&
              r.value.image == icon &&
              Entries(channelName, vods, audioUrl) == Ok(r.value.entries)
  {
    var entries: seq<Entry> := [];
    var i := 0;
    while i < |vods|
      invariant i <= |vods|
      invariant forall j :: 0 <= j < i ==> HasVodKeys(vods[j])
      invariant |entries| == i
      invariant forall j :: 0 <= j < i ==> entries[j] == EntryOf(channelName, vods[j], audioUrl)
    {
      var vod := vods[i];
      if !HasVodKeys(vod) {
        return Err(Abort(NOT_FOUND));
      }
      entries := entries + [EntryOf(channelName, vod, audioUrl)];
      i := i + 1;
    }
    EntriesAreTheAdded(channelName, vods, audioUrl, entries);
    r := Ok(Podcast(ChannelTitle(displayName), ChannelDescription(displayName), icon, entries));
  }
}
