/** The formats endpoint (`get_formats`): it validates the `url` argument,
    asks yt-dlp for the video's information, extracts the formats and maps
    every failure to a status code and a message. yt-dlp and `urlparse` are
    given as functions of the URL they are called with. */
module FormatsRoute {
  import opened Text
  import opened StableSort
  import opened Formats
  import AllowList
  import ErrorText

  /** The keys of yt-dlp's info dict that decide the outcome. */
  datatype InfoDict = InfoDict(title: Entry<string>, formats: Entry<seq<RawFormat>>, isLive: Entry<bool>)

  /** What `extract_info` does: raise a DownloadError with a text, raise
      something else, or return an info dict. `Returned(None)` is Python's
      None; `get_formats` treats an empty dict the same way, since it only
      tests truthiness, while `download_video` calls `.get` on it, so there
      an empty dict is `Returned(Some(InfoDict(Absent, Absent, Absent)))`. */
  datatype Extraction =
    | DownloadError(text: string)
    | OtherError
    | Returned(info: Option<InfoDict>)

  datatype FormatsResponse =
    | Failure(status: int, error: string)
    | Listing(title: Option<string>, video: seq<VideoFormat>, audio: seq<AudioFormat>, bestAudio: Option<AudioSummary>)

  const MissingUrlMessage: string := "Missing 'url' parameter"
  const UnexpectedMessage: string := "An unexpected server error occurred."

  /** `request.args.get('url')` is present and non-empty. */
  predicate HasUrl(urlArg: Option<string>) {
    urlArg.Some? && urlArg.value != ""
  }

  /** The argument passes both guards before yt-dlp is called. */
  predicate Admitted(urlArg: Option<string>, netlocOf: string -> Option<string>) {
    HasUrl(urlArg) && AllowList.IsSupportedUrl(AllowList.WithScheme(urlArg.value), netlocOf)
  }

  /** `info_dict.get('formats', [])`, for a value other than None. */
  function FormatList(info: InfoDict): seq<RawFormat>
    requires !info.formats.Null?
  {
    if info.formats.Val? then info.formats.v else []
  }

  /** GET /api/get-formats?url=... */
  method GetFormats(urlArg: Option<string>, netlocOf: string -> Option<string>, extractInfo: string -> Extraction)
    returns (r: FormatsResponse)
    ensures !HasUrl(urlArg) ==> r == Failure(400, MissingUrlMessage)
    ensures HasUrl(urlArg) && !Admitted(urlArg, netlocOf) ==> r == Failure(400, ErrorText.UnsupportedMessage)
    ensures Admitted(urlArg, netlocOf) ==>
              var extraction := extractInfo(AllowList.WithScheme(urlArg.value));
              (extraction.DownloadError? ==> r == Failure(ErrorText.MappedStatus, ErrorText.FriendlyMessage(extraction.text))) &&
              (extraction.OtherError? ==> r == Failure(500, UnexpectedMessage)) &&
              (extraction == Returned(None) ==> r == Failure(ErrorText.MappedStatus, ErrorText.GenericMessage)) &&
              (extraction.Returned? && extraction.info.Some? && extraction.info.value.formats.Null? ==> r == Failure(500, UnexpectedMessage))
    ensures Admitted(urlArg, netlocOf) ==>
              var extraction := extractInfo(AllowList.WithScheme(urlArg.value));
              extraction.Returned? && extraction.info.Some? && !extraction.info.value.formats.Null? ==>
                var info := extraction.info.value;
                var video, audio := VideoEntries(FormatList(info)), AudioEntries(FormatList(info));
                (video == [] && audio == [] ==> r == Failure(ErrorText.MappedStatus, ErrorText.GenericMessage)) &&
                (video != [] || audio != [] ==>
                   r == Listing(GetOr(info.title, "Untitled Video"), SortByKey(video, VideoKey), SortByKey(audio, AudioKey),
                                Summarize(BestAudio(audio))))
    ensures r.Failure? ==> r.status == 400 || r.status == 500
    ensures r.Listing? ==> r.video != [] || r.audio != []
  {
    if !HasUrl(urlArg) {
      return Failure(400, MissingUrlMessage);
    }
    var videoUrl := AllowList.WithScheme(urlArg.value);
    assert AllowList.WithScheme(videoUrl) == videoUrl;
    if !AllowList.IsSupportedUrl(videoUrl, netlocOf) {
      return Failure(400, ErrorText.UnsupportedMessage);
    }
    var raised: Option<string>;
    match extractInfo(videoUrl) {
      case OtherError =>
        return Failure(500, UnexpectedMessage);
      case DownloadError(text) =>
        raised := Some(text);
      case Returned(None) =>
        raised := Some(ErrorText.NoInfoText);
      case Returned(Some(info)) =>
        if info.formats.Null? {
          return Failure(500, UnexpectedMessage);
        }
        var video, audio, bestAudio := ExtractFormats(FormatList(info));
        if video == [] && audio == [] {
          if TruthyFlag(info.isLive) {
            raised := Some(ErrorText.LiveText);
          } else {
            raised := Some(ErrorText.NoFormatsText);
          }
        } else {
          return Listing(GetOr(info.title, "Untitled Video"), video, audio, bestAudio);
        }
    }
    ErrorText.InternalTextsAreGeneric();
    r := Failure(ErrorText.MappedStatus, ErrorText.FriendlyMessage(raised.value));
  }
}
