/** The download endpoint (`download_video`): it picks the requested format,
    decides whether yt-dlp must merge in an audio stream, builds the file
    name, runs the download in a scratch directory and removes that directory
    on every way out. yt-dlp, the file system calls and `send_file` are
    replaced by their outcomes, given as inputs. */
module Download {
  import opened Text
  import opened Sanitize
  import opened Formats
  import opened FormatsRoute

  /** The query arguments `url`, `format_id` and `filename` (None when missing). */
  datatype DownloadArgs = DownloadArgs(url: Option<string>, formatId: Option<string>, filename: Option<string>)

  /** How each outside step ends: `download`, `rename` hold the text of the
      exception they raise, None when they succeed; `produced` says whether
      the glob found the downloaded file, `finalExists` whether the renamed
      file is there, `sendOk` whether `send_file` returns. */
  datatype Steps = Steps(
    mkdtempOk: bool,
    info: Extraction,
    download: Option<string>,
    produced: bool,
    rename: Option<string>,
    finalExists: bool,
    sendOk: bool)

  /** What yt-dlp is asked for and the name the file is sent under. */
  datatype Plan = Plan(selector: string, merge: bool, ext: string, finalName: string)

  datatype DownloadResponse = JsonError(status: int, error: string) | FileSent(downloadName: string)

  /** An exception reaching the outer `except`: a yt-dlp DownloadError, an
      `abort(code, description)`, or anything else. */
  datatype Raised = DownloadFailed(text: string) | Aborted(code: int, description: string) | Crashed

  const MissingParamsMessage: string := "Missing parameters"
  const FailedUnexpectedly: string := "Server download failed unexpectedly."
  const FfmpegMessage: string :=
    "Download failed: " + "FFmpeg utility may be missing or not found on the server. " + "It's required for merging audio/video."
  const OutputMissingMessage: string := "Server error: Download seemed to succeed but the output file is missing."
  const FinalLostMessage: string := "Server error: Final file path lost before sending."

  /** The two required arguments are present and non-empty. */
  predicate HasParams(args: DownloadArgs) {
    NonEmpty(args.url) && NonEmpty(args.formatId)
  }

  /** `request.args.get('filename', 'video')`. */
  function RequestedName(args: DownloadArgs): string {
    if args.filename.Some? then args.filename.value else "video"
  }

  /** The first record whose format_id equals `id`. */
  function FirstWithId(formats: seq<RawFormat>, id: string): (r: Option<nat>)
    ensures r.Some? ==> r.value < |formats| && formats[r.value].formatId == Val(id)
    ensures r.Some? ==> forall j :: 0 <= j < r.value ==> formats[j].formatId != Val(id)
    ensures r.None? ==> forall j :: 0 <= j < |formats| ==> formats[j].formatId != Val(id)
  {
    if formats == [] then None
    else if formats[0].formatId == Val(id) then Some(0)
    else match FirstWithId(formats[1..], id)
      case None => None
      case Some(i) => Some(i + 1)
  }

  /** The loop over `formats` that stops at the first matching id. */
  method FindFormat(formats: seq<RawFormat>, id: string) returns (found: Option<nat>)
    ensures found == FirstWithId(formats, id)
    ensures found.Some? ==> formats[found.value].formatId == Val(id)
  {
    found := None;
    var i := 0;
    while i < |formats|
      invariant 0 <= i <= |formats|
      invariant forall j :: 0 <= j < i ==> formats[j].formatId != Val(id)
    {
      if formats[i].formatId == Val(id) {
        found := Some(i);
        break;
      }
      i := i + 1;
    }
    FirstWithIdUnique(formats, id, found);
  }

  /** The specification's answer is the only one with the first-match property. */
  lemma FirstWithIdUnique(formats: seq<RawFormat>, id: string, found: Option<nat>)
    requires found.Some? ==> found.value < |formats| && formats[found.value].formatId == Val(id) &&
                             forall j :: 0 <= j < found.value ==> formats[j].formatId != Val(id)
    requires found.None? ==> forall j :: 0 <= j < |formats| ==> formats[j].formatId != Val(id)
    ensures found == FirstWithId(formats, id)
  {
    var r := FirstWithId(formats, id);
    if found.Some? && r.Some? {
      assert !(found.value < r.value) && !(r.value < found.value);
    }
  }

  /** A merge is needed for a format with video and without audio. */
  predicate NeedsMerge(f: RawFormat) {
    f.vcodec != Val("none") && f.acodec == Val("none")
  }

  /** The f-string rendering of `f.get('ext', 'mp4')`. */
  function ExtText(ext: Entry<string>): string {
    match ext
    case Absent => "mp4"
    case Null => "None"
    case Val(e) => e
  }

  /** Joining two names that have no forbidden character with a '.' adds none. */
  lemma JoinKeepsNoForbidden(a: string, b: string)
    requires NoForbidden(a) && NoForbidden(b)
    ensures NoForbidden(a + "." + b)
  {
    var r := a + "." + b;
    forall i | 0 <= i < |r| ensures !IsForbidden(r[i]) {
      if i < |a| {
        assert r[i] == a[i];
      } else if i > |a| {
        assert r[i] == b[i - |a| - 1];
      }
    }
  }

  lemma JoinEndsWith(a: string, b: string)
    ensures EndsWith(a + "." + b, "." + b)
  {
    assert (a + "." + b)[|a|..] == "." + b;
  }

  /** `sanitize_filename(os.path.splitext(filename_in)[0]) + "." + ext`. */
  function FinalFilename(filenameIn: string, ext: string): (r: string)
    ensures var base := SanitizeFilename(SplitExt(filenameIn).0);
            r == base + "." + ext && IsSafeName(base)
    ensures NoForbidden(ext) ==> NoForbidden(r)
  {
    var base := SanitizeFilename(SplitExt(filenameIn).0);
    if NoForbidden(ext) then
      JoinKeepsNoForbidden(base, ext);
      base + "." + ext
    else base + "." + ext
  }

  /** The container yt-dlp merges video and audio into. */
  const MergedExt: string := "mkv"

  /** The decisions made once the format record is known. */
  function Decide(f: RawFormat, id: string, filenameIn: string): (p: Plan)
    ensures p.merge <==> NeedsMerge(f)
    ensures p.merge ==> p.selector == id + "+bestaudio/bestaudio" && p.ext == MergedExt
    ensures !p.merge ==> p.selector == id && p.ext == ExtText(f.ext)
    ensures p.finalName == FinalFilename(filenameIn, p.ext)
  {
    if NeedsMerge(f) then Plan(id + "+bestaudio/bestaudio", true, MergedExt, FinalFilename(filenameIn, MergedExt))
    else Plan(id, false, ExtText(f.ext), FinalFilename(filenameIn, ExtText(f.ext)))
  }

  /** A merged download is named `<safe base>.mkv`. */
  lemma MergedNameEndsMkv(f: RawFormat, id: string, filenameIn: string)
    requires NeedsMerge(f)
    ensures EndsWith(Decide(f, id, filenameIn).finalName, "." + MergedExt)
  {
    var base := SanitizeFilename(SplitExt(filenameIn).0);
    assert Decide(f, id, filenameIn).finalName == base + "." + MergedExt;
    JoinEndsWith(base, MergedExt);
  }

  /** A name built with a separator-free extension has no path separator, so
      the file stays inside the scratch directory. */
  lemma FinalNameHasNoSeparator(filenameIn: string, ext: string)
    requires NoForbidden(ext)
    ensures forall i :: 0 <= i < |FinalFilename(filenameIn, ext)| ==>
              FinalFilename(filenameIn, ext)[i] != '/' && FinalFilename(filenameIn, ext)[i] != '\\'
  {
  }

  /** The description passed to `abort` when the download step raises. */
  function DownloadFailureMessage(merge: bool, text: string): (m: string)
    ensures m == FfmpegMessage <==> merge && (Contains(Lower(text), "ffmpeg") || Contains(Lower(text), "ffprobe"))
    ensures m != FfmpegMessage ==> m == "Download failed during server processing: " + text
  {
    if merge && (Contains(Lower(text), "ffmpeg") || Contains(Lower(text), "ffprobe")) then FfmpegMessage
    else
      var prefix := "Download failed during server processing: ";
      assert (prefix + text)[15] == prefix[15] == ' ' && FfmpegMessage[15] == ':';
      prefix + text
  }

  /** The text of the DownloadError raised when no format matches. */
  function NotFoundText(id: string): string {
    "Format ID " + id + " not found for URL."
  }

  /** The outer `except`: a DownloadError is reported as a preparation
      failure, an abort with its own code and description, anything else
      generically; all of them with status 500 here. */
  function ErrorResponse(e: Raised): (r: DownloadResponse)
    ensures r.JsonError?
    ensures e.DownloadFailed? ==> r.error == "Download preparation failed: " + e.text && r.status == 500
    ensures e.Aborted? ==> r == JsonError(e.code, e.description)
    ensures e.Crashed? ==> r == JsonError(500, FailedUnexpectedly)
  {
    match e
    case DownloadFailed(text) => JsonError(500, "Download preparation failed: " + text)
    case Aborted(code, description) => JsonError(code, description)
    case Crashed => JsonError(500, FailedUnexpectedly)
  }

  /** How the steps after the scratch directory's creation end. */
  datatype Exit = Raise(e: Raised) | Send(name: string)

  const RenameFailedPrefix: string := "Server error: Failed to prepare file after download: "

  /** Where the steps after the plan stop: the download, the glob for the
      produced file, the rename, the existence check and `send_file`. Only
      when all of them succeed is the planned name sent; every abort here
      has status 500. */
  function AfterPlan(plan: Plan, steps: Steps): (r: Exit)
    ensures r.Send? <==> steps.download.None? && steps.produced && steps.rename.None? && steps.finalExists && steps.sendOk
    ensures r.Send? ==> r.name == plan.finalName
    ensures r.Raise? ==> r.e.Crashed? || (r.e.Aborted? && r.e.code == 500)
  {
    if steps.download.Some? then Raise(Aborted(500, DownloadFailureMessage(plan.merge, steps.download.value)))
    else if !steps.produced then Raise(Aborted(500, OutputMissingMessage))
    else if steps.rename.Some? then Raise(Aborted(500, RenameFailedPrefix + steps.rename.value))
    else if !steps.finalExists then Raise(Aborted(500, FinalLostMessage))
    else if !steps.sendOk then Raise(Crashed)
    else Send(plan.finalName)
  }

  /** Where the steps after the scratch directory's creation stop: an
      exception, or the file to send. */
  function Run(args: DownloadArgs, steps: Steps): (r: Exit)
    requires HasParams(args)
  {
    match steps.info
    case OtherError => Raise(Crashed)
    case DownloadError(text) => Raise(DownloadFailed(text))
    case Returned(None) => Raise(Crashed)
    case Returned(Some(info)) =>
      if info.formats.Null? then Raise(Crashed)
      else
        var formats := FormatList(info);
        var id := args.formatId.value;
        match FirstWithId(formats, id)
        case None => Raise(DownloadFailed(NotFoundText(id)))
        case Some(i) => AfterPlan(Decide(formats[i], id, RequestedName(args)), steps)
  }

  /** The response of GET /api/download for the given arguments and step outcomes. */
  function Respond(args: DownloadArgs, steps: Steps): DownloadResponse {
    if !HasParams(args) then JsonError(400, MissingParamsMessage)
    else if !steps.mkdtempOk then ErrorResponse(Crashed)
    else match Run(args, steps)
      case Raise(e) => ErrorResponse(e)
      case Send(name) => FileSent(name)
  }

  /** Every failure after the argument check has status 500. */
  lemma FailureStatus(args: DownloadArgs, steps: Steps)
    ensures var r := Respond(args, steps);
            r.JsonError? ==> r.status == (if HasParams(args) then 500 else 400)
  {
  }

  /** A sent file carries the planned name for the first record with the requested id. */
  lemma SentName(args: DownloadArgs, steps: Steps)
    requires Respond(args, steps).FileSent?
    ensures HasParams(args) && steps.info.Returned? && steps.info.info.Some?
    ensures !steps.info.info.value.formats.Null?
    ensures var formats := FormatList(steps.info.info.value);
            var found := FirstWithId(formats, args.formatId.value);
            found.Some? &&
            Respond(args, steps).downloadName == Decide(formats[found.value], args.formatId.value, RequestedName(args)).finalName
  {
    assert HasParams(args) && Run(args, steps).Send?;
    RunSends(args, steps);
  }

  /** The only way Run reaches `send_file`. */
  lemma RunSends(args: DownloadArgs, steps: Steps)
    requires HasParams(args) && Run(args, steps).Send?
    ensures steps.info.Returned? && steps.info.info.Some? && !steps.info.info.value.formats.Null?
    ensures var formats := FormatList(steps.info.info.value);
            var found := FirstWithId(formats, args.formatId.value);
            found.Some? &&
            Run(args, steps).name == Decide(formats[found.value], args.formatId.value, RequestedName(args)).finalName
  {
  }

  /** An id that no record carries ends in a preparation failure naming it. */
  lemma UnknownFormatReported(args: DownloadArgs, steps: Steps, info: InfoDict)
    requires HasParams(args) && steps.mkdtempOk && steps.info == Returned(Some(info)) && !info.formats.Null?
    requires forall j :: 0 <= j < |FormatList(info)| ==> FormatList(info)[j].formatId != Val(args.formatId.value)
    ensures Respond(args, steps) == JsonError(500, "Download preparation failed: Format ID " + args.formatId.value + " not found for URL.")
  {
    FirstWithIdUnique(FormatList(info), args.formatId.value, None);
  }

  /** The server's scratch space: the set of existing temporary directories. */
  class Scratch {
    var dirs: set<nat>
    /** A name above every directory made so far, so each new one is fresh. */
    var next: nat
    /** Every removal attempt, in order. */
    ghost var removals: seq<nat>

    predicate Valid()
      reads this
    {
      forall d :: d in dirs ==> d < next
    }

    constructor ()
      ensures Valid() && dirs == {} && removals == []
    {
      dirs := {};
      next := 0;
      removals := [];
    }

    /** `tempfile.mkdtemp()`: a new directory, or None when creation raises. */
    method MkdTemp(ok: bool) returns (d: Option<nat>)
      requires Valid()
      modifies this
      ensures Valid()
      ensures ok ==> d.Some? && d.value !in old(dirs) && dirs == old(dirs) + {d.value}
      ensures !ok ==> d.None? && dirs == old(dirs)
      ensures removals == old(removals)
    {
      if ok {
        d := Some(next);
        dirs := dirs + {next};
        next := next + 1;
      } else {
        d := None;
      }
    }

    /** `if exists(d): shutil.rmtree(d)` with any exception swallowed; `ok`
        says whether rmtree succeeds. */
    method RemoveIfExists(d: nat, ok: bool)
      requires Valid()
      modifies this
      ensures Valid() && next == old(next)
      ensures d in old(dirs) ==> removals == old(removals) + [d]
      ensures d !in old(dirs) ==> removals == old(removals)
      ensures ok ==> dirs == old(dirs) - {d}
      ensures !ok ==> dirs == old(dirs)
    {
      if d in dirs {
        removals := removals + [d];
        if ok {
          dirs := dirs - {d};
        }
      }
    }
  }

  /** The scratch directory is made only once the arguments are present and mkdtemp works. */
  predicate MakesScratch(args: DownloadArgs, steps: Steps) {
    HasParams(args) && steps.mkdtempOk
  }

  /** GET /api/download. `rmtreeOk` says whether removing the scratch
      directory succeeds; it never changes the response. */
  method DownloadVideo(fs: Scratch, args: DownloadArgs, steps: Steps, rmtreeOk: bool) returns (resp: DownloadResponse)
    requires fs.Valid()
    modifies fs
    ensures fs.Valid()
    ensures resp == Respond(args, steps)
    ensures rmtreeOk ==> fs.dirs == old(fs.dirs)
    ensures !MakesScratch(args, steps) ==> fs.dirs == old(fs.dirs) && fs.removals == old(fs.removals)
    ensures MakesScratch(args, steps) ==>
              |fs.removals| == |old(fs.removals)| + 1 &&
              fs.removals[..|old(fs.removals)|] == old(fs.removals) &&
              fs.removals[|old(fs.removals)|] !in old(fs.dirs) &&
              fs.dirs - old(fs.dirs) <= {fs.removals[|old(fs.removals)|]} &&
              old(fs.dirs) <= fs.dirs
  {
    if !HasParams(args) {
      return JsonError(400, MissingParamsMessage);
    }
    var tempDir := fs.MkdTemp(steps.mkdtempOk);
    if tempDir.None? {
      return ErrorResponse(Crashed);
    }
    var raised: Option<Raised> := None;
    var sent := "";
    match steps.info {
      case OtherError =>
        raised := Some(Crashed);
      case DownloadError(text) =>
        raised := Some(DownloadFailed(text));
      case Returned(None) =>
        raised := Some(Crashed);
      case Returned(Some(info)) =>
        if info.formats.Null? {
          raised := Some(Crashed);
        } else {
          var formats := FormatList(info);
          var id := args.formatId.value;
          var found := FindFormat(formats, id);
          if found.None? {
            raised := Some(DownloadFailed(NotFoundText(id)));
          } else {
            var plan := Decide(formats[found.value], id, RequestedName(args));
            match AfterPlan(plan, steps) {
              case Raise(e) =>
                raised := Some(e);
              case Send(name) =>
                sent := name;
            }
          }
        }
    }
    if raised.Some? {
      // The except block removes the directory before answering.
      fs.RemoveIfExists(tempDir.value, rmtreeOk);
      resp := ErrorResponse(raised.value);
    } else {
      resp := FileSent(sent);
      // The deferred `after_this_request` hook removes it once the response is built.
      fs.RemoveIfExists(tempDir.value, rmtreeOk);
    }
  }
}
