/** The frontend's page state: `currentState` together with the parts of the
    DOM that the handlers read back (the displayed format cards, the "no
    formats" notices, the download button and the title text). The handlers
    `resetUI`, `selectFormat`, `filterFormats`, `fetchVideoInfo` and
    `downloadSelectedFormat` are methods of the `Page` class. */
module ClientPage {
  import opened Text
  import opened ClientText
  import opened ClientUrl
  import Sanitize
  import Download

  /** A format record as the backend's JSON delivers it; keys that may be
      missing or null are options. */
  datatype ClientFormat = ClientFormat(
    id: string,
    quality: Option<string>,
    height: Option<int>,
    abr: Option<int>,
    protocol: Option<string>,
    ext: Option<string>)

  datatype Kind = VideoCard | AudioCard

  /** `currentState.selectedFormat`: the format and the list it was picked from. */
  datatype Selection = Selection(format: ClientFormat, kind: Kind)

  /** The successful reply of the formats endpoint, as far as the page keeps it. */
  datatype Fetched = Fetched(title: Option<string>, video: seq<ClientFormat>, audio: seq<ClientFormat>)

  /** `isAdaptiveFormat`: the protocol mentions HLS or DASH. */
  predicate IsAdaptive(f: ClientFormat) {
    f.protocol.Some? && (Contains(f.protocol.value, "m3u8") || Contains(f.protocol.value, "dash"))
  }

  const HdPatterns: seq<string> := ["720", "1080", "1440", "2160", "4k"]
  const FourKPatterns: seq<string> := ["2160", "4k"]

  /** The case folding of a regular expression with the `i` flag and
      without the `u` flag: characters are compared through their upper
      case, and only ASCII letters meet an ASCII letter that way, so the
      Kelvin sign does not match 'k' here as it does under `toLowerCase`. */
  function RegexFold(s: string): (r: string)
    ensures |r| == |s|
    ensures forall i :: 0 <= i < |s| ==> r[i] == if s[i] == '\U{212A}' then s[i] else LowerChar(s[i])
  {
    seq(|s|, i requires 0 <= i < |s| => if 'A' <= s[i] <= 'Z' then LowerChar(s[i]) else s[i])
  }

  /** `quality && /p1|p2|.../i.test(quality)`. */
  predicate QualityMentions(quality: Option<string>, patterns: seq<string>) {
    quality.Some? && quality.value != "" &&
    exists i :: 0 <= i < |patterns| && Contains(RegexFold(quality.value), patterns[i])
  }

  predicate HeightAtLeast(f: ClientFormat, h: int) {
    f.height.Some? && f.height.value != 0 && f.height.value >= h
  }

  /** The video quality dropdown: "hd", "4k", or anything else for all. */
  predicate VideoFilterKeeps(filter: string, f: ClientFormat) {
    if filter == "hd" then HeightAtLeast(f, 720) || QualityMentions(f.quality, HdPatterns)
    else if filter == "4k" then HeightAtLeast(f, 2160) || QualityMentions(f.quality, FourKPatterns)
    else true
  }

  /** The audio quality dropdown: "high", or anything else for all. */
  predicate AudioFilterKeeps(filter: string, f: ClientFormat) {
    filter == "high" ==> f.abr.Some? && f.abr.value != 0 && f.abr.value >= 128
  }

  predicate Keeps(kind: Kind, filter: string, f: ClientFormat) {
    !IsAdaptive(f) && if kind == VideoCard then VideoFilterKeeps(filter, f) else AudioFilterKeeps(filter, f)
  }

  /** The cards `filterFormats` displays for a stored list, in order. */
  function Displayed(stored: seq<ClientFormat>, kind: Kind, filter: string): seq<ClientFormat> {
    if stored == [] then []
    else
      var last := stored[|stored| - 1];
      Displayed(stored[..|stored| - 1], kind, filter) + (if Keeps(kind, filter, last) then [last] else [])
  }

  /** `idx` places every element of `a` at a position of `b`, in increasing order. */
  predicate Embeds(idx: seq<nat>, a: seq<ClientFormat>, b: seq<ClientFormat>) {
    |idx| == |a| &&
    (forall k :: 0 <= k < |idx| ==> idx[k] < |b| && a[k] == b[idx[k]]) &&
    (forall k, l :: 0 <= k < l < |idx| ==> idx[k] < idx[l])
  }

  /** `a` is an order-preserving subsequence of `b`. */
  ghost predicate IsSubsequence(a: seq<ClientFormat>, b: seq<ClientFormat>) {
    exists idx :: Embeds(idx, a, b)
  }

  /** The displayed cards are the stored ones in their stored order, some left out. */
  lemma {:induction false} DisplayedEmbedding(stored: seq<ClientFormat>, kind: Kind, filter: string) returns (idx: seq<nat>)
    ensures Embeds(idx, Displayed(stored, kind, filter), stored)
  {
    if stored == [] {
      idx := [];
    } else {
      var n := |stored| - 1;
      var prefix := stored[..n];
      var idx0 := DisplayedEmbedding(prefix, kind, filter);
      var d0 := Displayed(prefix, kind, filter);
      assert forall k :: 0 <= k < |idx0| ==> idx0[k] < n && prefix[idx0[k]] == stored[idx0[k]];
      if Keeps(kind, filter, stored[n]) {
        idx := idx0 + [n];
        assert Displayed(stored, kind, filter) == d0 + [stored[n]];
      } else {
        idx := idx0;
      }
    }
  }

  lemma DisplayedIsSubsequence(stored: seq<ClientFormat>, kind: Kind, filter: string)
    ensures IsSubsequence(Displayed(stored, kind, filter), stored)
  {
    var idx := DisplayedEmbedding(stored, kind, filter);
  }

  /** A card is displayed exactly when its format is stored and the filter
      keeps it; an adaptive format is never displayed. */
  lemma {:induction false} DisplayedMembers(stored: seq<ClientFormat>, kind: Kind, filter: string)
    ensures forall f :: f in Displayed(stored, kind, filter) <==> f in stored && Keeps(kind, filter, f)
    ensures forall f :: f in Displayed(stored, kind, filter) ==> !IsAdaptive(f)
  {
    if stored != [] {
      var n := |stored| - 1;
      DisplayedMembers(stored[..n], kind, filter);
      assert stored == stored[..n] + [stored[n]];
    }
  }

  /** Every format kept by the "4k" filter is kept by the "hd" filter. */
  lemma FourKWithinHd(f: ClientFormat)
    ensures VideoFilterKeeps("4k", f) ==> VideoFilterKeeps("hd", f)
  {
    if QualityMentions(f.quality, FourKPatterns) {
      var i :| 0 <= i < |FourKPatterns| && Contains(RegexFold(f.quality.value), FourKPatterns[i]);
      assert FourKPatterns[i] == HdPatterns[i + 3];
    }
  }

  /** So the "4k" cards are a subsequence of the "hd" cards. */
  lemma {:induction false} FourKDisplayedWithinHd(stored: seq<ClientFormat>) returns (idx: seq<nat>)
    ensures Embeds(idx, Displayed(stored, VideoCard, "4k"), Displayed(stored, VideoCard, "hd"))
  {
    if stored == [] {
      idx := [];
    } else {
      var n := |stored| - 1;
      var prefix := stored[..n];
      var idx0 := FourKDisplayedWithinHd(prefix);
      var hd0 := Displayed(prefix, VideoCard, "hd");
      var hd := Displayed(stored, VideoCard, "hd");
      FourKWithinHd(stored[n]);
      assert forall k :: 0 <= k < |idx0| ==> idx0[k] < |hd0| && hd0[idx0[k]] == hd[idx0[k]];
      if Keeps(VideoCard, "4k", stored[n]) {
        idx := idx0 + [|hd0|];
        assert hd == hd0 + [stored[n]];
      } else {
        idx := idx0;
      }
    }
  }

  /** The filename the download link asks for: the sanitized title (or
      "video") and the format's extension (or "mp4"). */
  function ClientFilename(title: string, ext: Option<string>): (r: string)
    ensures var safe := ClientSanitize(if title == "" then "video" else title);
            var e := if ext.None? || ext.value == "" then "mp4" else ext.value;
            r == safe + "." + e && 0 < |safe| <= MaxClientName &&
            forall i :: 0 <= i < |safe| ==> JsAllowed(safe[i])
  {
    ClientSanitize(if title == "" then "video" else title) + "." + (if ext.None? || ext.value == "" then "mp4" else ext.value)
  }

  /** A title made of one emoji asks for "__.mp4": the emoji is two code units. */
  lemma EmojiTitleFilename()
    ensures ClientFilename("\U{1F600}", None) == "__.mp4"
  {
    ClientSanitizeAstral();
  }

  /** The backend strips the extension of the requested name before it
      sanitizes it; for an extension without '.' or '/', what it strips off is
      exactly what the frontend appended, and it gets the sanitized title back. */
  lemma BackendRecoversTitle(title: string, ext: Option<string>)
    requires ext.Some? ==> '.' !in ext.value && '/' !in ext.value
    requires var safe := ClientSanitize(if title == "" then "video" else title);
             exists i :: 0 <= i < |safe| && safe[i] != '.'
    ensures Sanitize.SplitExt(ClientFilename(title, ext)).0 == ClientSanitize(if title == "" then "video" else title)
  {
    var safe := ClientSanitize(if title == "" then "video" else title);
    var e := if ext.None? || ext.value == "" then "mp4" else ext.value;
    assert '.' !in e && '/' !in e;
    assert forall i :: 0 <= i < |safe| ==> safe[i] != '/';
    SplitExtOfJoin(safe, e);
  }

  /** `splitext(base + "." + e)` gives back `base` when `e` has no '.' and
      neither part has a '/', unless `base` is all dots. */
  lemma SplitExtOfJoin(base: string, e: string)
    requires forall i :: 0 <= i < |base| ==> base[i] != '/'
    requires '.' !in e && '/' !in e
    requires exists i :: 0 <= i < |base| && base[i] != '.'
    ensures Sanitize.SplitExt(base + "." + e).0 == base
  {
    var p := base + "." + e;
    NoSlashInJoin(base, e);
    LastDotOfJoin(base, e);
    var i :| 0 <= i < |base| && base[i] != '.';
    assert p[i] == base[i];
    assert Sanitize.HasNonDot(p, 0, |base|);
    assert p[..|base|] == base;
  }

  lemma NoSlashInJoin(base: string, e: string)
    requires forall i :: 0 <= i < |base| ==> base[i] != '/'
    requires '/' !in e
    ensures Sanitize.LastIndexOf(base + "." + e, '/') == -1
  {
    var p := base + "." + e;
    forall j | 0 <= j < |p| ensures p[j] != '/' {
      if j > |base| {
        assert p[j] == e[j - |base| - 1];
      }
    }
  }

  lemma LastDotOfJoin(base: string, e: string)
    requires '.' !in e
    ensures Sanitize.LastIndexOf(base + "." + e, '.') == |base|
  {
    var p := base + "." + e;
    var last := Sanitize.LastIndexOf(p, '.');
    assert p[|base|] == '.';
    TailHasNoDot(base, e, last);
  }

  lemma TailHasNoDot(base: string, e: string, k: int)
    requires '.' !in e
    ensures |base| < k < |base + "." + e| ==> (base + "." + e)[k] != '.'
  {
    if |base| < k < |base + "." + e| {
      assert (base + "." + e)[k] == e[k - |base| - 1];
    }
  }

  /** One `forEach` of `filterFormats`: skips adaptive formats, appends a
      card for every format the filter keeps, and counts the cards. */
  method BuildCards(stored: seq<ClientFormat>, kind: Kind, filter: string) returns (shown: seq<ClientFormat>, found: nat)
    ensures shown == Displayed(stored, kind, filter)
    ensures found == |shown|
  {
    shown := [];
    found := 0;
    for i := 0 to |stored|
      invariant shown == Displayed(stored[..i], kind, filter)
      invariant found == |shown|
    {
      assert stored[..i + 1][..i] == stored[..i];
      var f := stored[i];
      if IsAdaptive(f) {
        continue;
      }
      var keep := if kind == VideoCard then VideoFilterKeeps(filter, f) else AudioFilterKeeps(filter, f);
      if keep {
        shown := shown + [f];
        found := found + 1;
      }
    }
    assert stored[..|stored|] == stored;
  }

  predicate VisibleIn(cards: seq<ClientFormat>, id: string) {
    exists i :: 0 <= i < |cards| && cards[i].id == id
  }

  /** The displayed cards come from the stored lists in order and are never
      adaptive, and a selection is always on a displayed card. The download
      button may be enabled without a selection: the re-enabling timer of a
      download can fire after `resetUI` has cleared the selection. */
  ghost predicate PageInvariant(storedVideo: seq<ClientFormat>, storedAudio: seq<ClientFormat>,
                                shownVideo: seq<ClientFormat>, shownAudio: seq<ClientFormat>,
                                selected: Option<Selection>)
  {
    IsSubsequence(shownVideo, storedVideo) && IsSubsequence(shownAudio, storedAudio) &&
    (forall f :: f in shownVideo + shownAudio ==> !IsAdaptive(f)) &&
    (selected.Some? ==> VisibleIn(shownVideo + shownAudio, selected.value.format.id))
  }

  /** Rebuilding the cards from the stored lists keeps the invariant for
      any selection that is still visible afterwards. */
  lemma FilteredInvariant(storedVideo: seq<ClientFormat>, storedAudio: seq<ClientFormat>,
                          videoFilter: string, audioFilter: string,
                          selected: Option<Selection>)
    requires var cards := Displayed(storedVideo, VideoCard, videoFilter) + Displayed(storedAudio, AudioCard, audioFilter);
             selected.Some? ==> VisibleIn(cards, selected.value.format.id)
    ensures PageInvariant(storedVideo, storedAudio, Displayed(storedVideo, VideoCard, videoFilter),
                          Displayed(storedAudio, AudioCard, audioFilter), selected)
  {
    DisplayedIsSubsequence(storedVideo, VideoCard, videoFilter);
    DisplayedIsSubsequence(storedAudio, AudioCard, audioFilter);
    DisplayedMembers(storedVideo, VideoCard, videoFilter);
    DisplayedMembers(storedAudio, AudioCard, audioFilter);
  }

  /** With no cards displayed the invariant holds for no selection. */
  lemma EmptyInvariant(storedVideo: seq<ClientFormat>, storedAudio: seq<ClientFormat>)
    ensures PageInvariant(storedVideo, storedAudio, [], [], None)
  {
    assert Embeds([], [], storedVideo);
    assert Embeds([], [], storedAudio);
  }

  class Page {
    var videoUrl: string
    var videoTitle: string
    var storedVideo: seq<ClientFormat>
    var storedAudio: seq<ClientFormat>
    var shownVideo: seq<ClientFormat>
    var shownAudio: seq<ClientFormat>
    var noVideoHidden: bool
    var noAudioHidden: bool
    var urlErrorShown: bool
    var selected: Option<Selection>
    var downloadInProgress: bool
    var downloadDisabled: bool
    /** The download requests the page has sent, in order. */
    var requests: seq<Download.DownloadArgs>

    /** Whether a displayed card carries this format id (the `querySelector`). */
    predicate Visible(id: string)
      reads this
    {
      VisibleIn(shownVideo + shownAudio, id)
    }

    ghost predicate Valid()
      reads this
    {
      PageInvariant(storedVideo, storedAudio, shownVideo, shownAudio, selected)
    }

    /** The initial `currentState`, followed by the `resetUI` of the page's load handler. */
    constructor ()
      ensures Valid()
      ensures videoUrl == "" && storedVideo == [] && storedAudio == [] && requests == []
      ensures selected.None? && !downloadInProgress && downloadDisabled
      ensures shownVideo == [] && shownAudio == [] && noVideoHidden && noAudioHidden && !urlErrorShown
    {
      videoUrl := "";
      videoTitle := "";
      storedVideo := [];
      storedAudio := [];
      shownVideo := [];
      shownAudio := [];
      noVideoHidden := true;
      noAudioHidden := true;
      urlErrorShown := false;
      selected := None;
      downloadInProgress := false;
      downloadDisabled := true;
      requests := [];
      new;
      EmptyInvariant(storedVideo, storedAudio);
    }

    /** `resetUI`: clears the selection, the in-progress flag and the cards,
        disables the download button and hides both notices and the URL error. */
    method ResetUI()
      modifies this`selected, this`downloadInProgress, this`downloadDisabled, this`urlErrorShown
      modifies this`shownVideo, this`shownAudio, this`noVideoHidden, this`noAudioHidden
      ensures Valid()
      ensures selected.None? && !downloadInProgress && downloadDisabled && !urlErrorShown
      ensures shownVideo == [] && shownAudio == [] && noVideoHidden && noAudioHidden
    {
      urlErrorShown := false;
      selected := None;
      downloadInProgress := false;
      downloadDisabled := true;
      shownVideo := [];
      shownAudio := [];
      noVideoHidden := true;
      noAudioHidden := true;
      EmptyInvariant(storedVideo, storedAudio);
    }

    /** `selectFormat(format, type)`, run by a click on a displayed card. */
    method SelectFormat(format: ClientFormat, kind: Kind)
      requires Valid()
      requires kind == VideoCard ==> format in shownVideo
      requires kind == AudioCard ==> format in shownAudio
      modifies this`selected, this`downloadDisabled
      ensures Valid()
      ensures selected == Some(Selection(format, kind)) && !downloadDisabled
    {
      ghost var cards := shownVideo + shownAudio;
      if kind == VideoCard {
        ghost var j :| 0 <= j < |shownVideo| && shownVideo[j] == format;
        assert cards[j] == format;
      } else {
        ghost var j :| 0 <= j < |shownAudio| && shownAudio[j] == format;
        assert cards[|shownVideo| + j] == format;
      }
      selected := Some(Selection(format, kind));
      downloadDisabled := false;
    }

    /** `filterFormats()` with the two dropdown values: rebuilds both card
        lists, sets the notices, and drops a selection whose card is gone. */
    method FilterFormats(videoFilter: string, audioFilter: string)
      requires Valid()
      modifies this`shownVideo, this`shownAudio, this`noVideoHidden, this`noAudioHidden
      modifies this`selected, this`downloadDisabled
      ensures Valid()
      ensures shownVideo == Displayed(storedVideo, VideoCard, videoFilter)
      ensures shownAudio == Displayed(storedAudio, AudioCard, audioFilter)
      ensures noVideoHidden <==> |shownVideo| > 0
      ensures noAudioHidden <==> |shownAudio| > 0
      ensures old(selected).Some? && Visible(old(selected).value.format.id) ==>
                selected == old(selected) && downloadDisabled == old(downloadDisabled)
      ensures old(selected).Some? && !Visible(old(selected).value.format.id) ==> selected.None? && downloadDisabled
      ensures old(selected).None? ==> selected.None? && downloadDisabled == old(downloadDisabled)
    {
      var video, videoFound := BuildCards(storedVideo, VideoCard, videoFilter);
      var audio, audioFound := BuildCards(storedAudio, AudioCard, audioFilter);
      var drop := selected.Some? && !VisibleIn(video + audio, selected.value.format.id);
      shownVideo, shownAudio := video, audio;
      noVideoHidden, noAudioHidden := videoFound > 0, audioFound > 0;
      selected, downloadDisabled := if drop then None else selected, drop || downloadDisabled;
      FilteredInvariant(storedVideo, storedAudio, videoFilter, audioFilter, selected);
    }

    /** `fetchVideoInfo()` for the trimmed input text, where `reply` is the
        parsed successful reply of the formats endpoint, or None for any
        failure (a network error, a non-OK status, `success` false). An input
        the URL check rejects only shows the URL error. */
    method FetchVideoInfo(url: string, hostnameOf: string -> Option<string>, reply: Option<Fetched>,
                          videoFilter: string, audioFilter: string)
      requires Valid()
      modifies this`urlErrorShown, this`videoUrl, this`videoTitle, this`storedVideo, this`storedAudio
      modifies this`shownVideo, this`shownAudio, this`noVideoHidden, this`noAudioHidden
      modifies this`selected, this`downloadInProgress, this`downloadDisabled
      ensures Valid()
      ensures urlErrorShown <==> !ClientIsValidUrl(url, hostnameOf)
      ensures !ClientIsValidUrl(url, hostnameOf) ==>
                videoUrl == old(videoUrl) && selected == old(selected) &&
                shownVideo == old(shownVideo) && shownAudio == old(shownAudio) &&
                storedVideo == old(storedVideo) && storedAudio == old(storedAudio) &&
                downloadInProgress == old(downloadInProgress) && downloadDisabled == old(downloadDisabled) &&
                videoTitle == old(videoTitle) && noVideoHidden == old(noVideoHidden) && noAudioHidden == old(noAudioHidden)
      ensures ClientIsValidUrl(url, hostnameOf) ==>
                videoUrl == url && !downloadInProgress && selected.None? && downloadDisabled &&
                (reply.None? ==> shownVideo == [] && shownAudio == [] && noVideoHidden && noAudioHidden &&
                                 storedVideo == old(storedVideo) && storedAudio == old(storedAudio) &&
                                 videoTitle == old(videoTitle)) &&
                (reply.Some? ==> Shows(reply.value, videoFilter, audioFilter) &&
                                 (noVideoHidden <==> |shownVideo| > 0) && (noAudioHidden <==> |shownAudio| > 0))
    {
      if !ClientIsValidUrl(url, hostnameOf) {
        urlErrorShown := true;
        return;
      }
      urlErrorShown := false;
      videoUrl := url;
      ShowReply(reply, videoFilter, audioFilter);
    }

    /** The page displays a fetched reply: its title (or "N/A"), its stored
        lists, and the cards the filters keep. */
    ghost predicate Shows(data: Fetched, videoFilter: string, audioFilter: string)
      reads this
    {
      storedVideo == data.video && storedAudio == data.audio &&
      videoTitle == (if data.title.None? || data.title.value == "" then "N/A" else data.title.value) &&
      shownVideo == Displayed(storedVideo, VideoCard, videoFilter) &&
      shownAudio == Displayed(storedAudio, AudioCard, audioFilter)
    }

    /** The part of `fetchVideoInfo` after the URL check: `showLoading` resets
        the page, a successful reply is stored and filtered, and a failed one
        (`showError`) only resets the page again. */
    method ShowReply(reply: Option<Fetched>, videoFilter: string, audioFilter: string)
      requires Valid()
      modifies this`videoTitle, this`storedVideo, this`storedAudio, this`urlErrorShown
      modifies this`shownVideo, this`shownAudio, this`noVideoHidden, this`noAudioHidden
      modifies this`selected, this`downloadInProgress, this`downloadDisabled
      ensures Valid()
      ensures !downloadInProgress && selected.None? && downloadDisabled && !urlErrorShown
      ensures reply.None? ==> shownVideo == [] && shownAudio == [] && noVideoHidden && noAudioHidden &&
                              storedVideo == old(storedVideo) && storedAudio == old(storedAudio) &&
                              videoTitle == old(videoTitle)
      ensures reply.Some? ==> Shows(reply.value, videoFilter, audioFilter)
      ensures reply.Some? ==> (noVideoHidden <==> |shownVideo| > 0) && (noAudioHidden <==> |shownAudio| > 0)
    {
      ResetUI();
      if reply.Some? {
        Store(reply.value);
        assert selected.None? && downloadDisabled && !downloadInProgress && !urlErrorShown;
        FilterFormats(videoFilter, audioFilter);
        assert storedVideo == reply.value.video && storedAudio == reply.value.audio && !urlErrorShown;
      } else {
        assert storedVideo == old(storedVideo) && storedAudio == old(storedAudio) && videoTitle == old(videoTitle);
      }
    }

    /** Sets the title text and stores the two format lists of a reply, on a
        page without cards. */
    method Store(data: Fetched)
      requires shownVideo == [] && shownAudio == [] && selected.None?
      modifies this`videoTitle, this`storedVideo, this`storedAudio
      ensures Valid()
      ensures storedVideo == data.video && storedAudio == data.audio
      ensures videoTitle == if data.title.None? || data.title.value == "" then "N/A" else data.title.value
    {
      videoTitle := if data.title.None? || data.title.value == "" then "N/A" else data.title.value;
      storedVideo := data.video;
      storedAudio := data.audio;
      EmptyInvariant(storedVideo, storedAudio);
    }

    /** The `setTimeout` callback a download schedules, five seconds later:
        it re-enables the button and ends the download, whatever the page
        shows by then. */
    method TimerFires()
      requires Valid()
      modifies this`downloadInProgress, this`downloadDisabled
      ensures Valid()
      ensures !downloadInProgress && !downloadDisabled
    {
      downloadDisabled := false;
      downloadInProgress := false;
    }

    /** `downloadSelectedFormat()`: with a selection, a URL and no download
        under way, it marks a download as under way, disables the button and
        sends one request; otherwise it does nothing. */
    method DownloadSelectedFormat()
      requires Valid()
      modifies this`downloadInProgress, this`downloadDisabled, this`requests
      ensures Valid()
      ensures selected.None? || videoUrl == "" || old(downloadInProgress) ==>
                downloadInProgress == old(downloadInProgress) && downloadDisabled == old(downloadDisabled) &&
                requests == old(requests)
      ensures selected.Some? && videoUrl != "" && !old(downloadInProgress) ==>
                downloadInProgress && downloadDisabled &&
                requests == old(requests) + [Download.DownloadArgs(Some(videoUrl), Some(selected.value.format.id),
                                                                   Some(ClientFilename(videoTitle, selected.value.format.ext)))]
    {
      if selected.None? || videoUrl == "" || downloadInProgress {
        return;
      }
      downloadInProgress := true;
      var f := selected.value.format;
      var filename := ClientFilename(videoTitle, f.ext);
      downloadDisabled := true;
      requests := requests + [Download.DownloadArgs(Some(videoUrl), Some(f.id), Some(filename))];
    }
  }
}
