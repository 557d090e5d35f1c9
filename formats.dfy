/** The backend's format extractor (`extract_formats`): it filters yt-dlp's raw
    format records, splits them into video and audio entries, sorts both lists
    and picks a best audio stream. */
module Formats {
  import opened Text
  import opened StableSort

  /** One record of yt-dlp's `formats` list, restricted to the keys the
      extractor reads. Numbers (bitrates, sizes, heights, frame rates) are
      integers here. */
  datatype RawFormat = RawFormat(
    url: Entry<string>,
    formatId: Entry<string>,
    isLive: Entry<bool>,
    filesize: Entry<int>,
    filesizeApprox: Entry<int>,
    abr: Entry<int>,
    vcodec: Entry<string>,
    acodec: Entry<string>,
    resolution: Entry<string>,
    height: Entry<int>,
    formatNote: Entry<string>,
    ext: Entry<string>,
    fps: Entry<int>,
    protocol: Entry<string>)

  /** The `size` string: `"{bytes / 2**20:.2f} MB"` for a truthy byte count,
      otherwise "N/A". The decimal rendering itself is not modelled. */
  datatype SizeLabel = NotAvailable | Megabytes(bytes: int)

  /** A dict appended to `video_formats`. */
  datatype VideoFormat = VideoFormat(
    quality: Option<string>,
    resolution: Option<string>,
    size: SizeLabel,
    id: string,
    vcodec: Option<string>,
    acodec: Option<string>,
    ext: Option<string>,
    url: string,
    height: int,
    fps: Option<int>,
    protocol: Option<string>,
    filesize: Option<int>)

  /** A dict appended to `audio_formats`. */
  datatype AudioFormat = AudioFormat(
    quality: string,
    abr: Option<int>,
    size: SizeLabel,
    filesize: Option<int>,
    id: string,
    acodec: Option<string>,
    ext: Option<string>,
    url: string,
    protocol: Option<string>)

  /** The reduced best-audio dict returned as `bestAudio`. */
  datatype AudioSummary = AudioSummary(quality: string, size: SizeLabel, id: string, ext: Option<string>)

  /** The first two guards of the loop: a truthy url and format_id, and not live. */
  predicate Downloadable(f: RawFormat) {
    TruthyText(f.url) && TruthyText(f.formatId) && !TruthyFlag(f.isLive)
  }

  /** The `if` branch: a video codec other than 'none' and a resolution or height. */
  predicate IsVideo(f: RawFormat) {
    Downloadable(f) && f.vcodec != Val("none") && (TruthyText(f.resolution) || TruthyNumber(f.height))
  }

  /** The `elif` branch: an audio codec other than 'none' and the video codec 'none'. */
  predicate IsAudio(f: RawFormat) {
    Downloadable(f) && !IsVideo(f) && f.acodec != Val("none") && f.vcodec == Val("none")
  }

  /** `f.get('filesize') or f.get('filesize_approx')`. */
  function Filesize(f: RawFormat): Option<int> {
    if TruthyNumber(f.filesize) then Some(f.filesize.v) else Get(f.filesizeApprox)
  }

  function SizeOf(filesize: Option<int>): (r: SizeLabel)
    ensures r.Megabytes? <==> filesize.Some? && filesize.value != 0
    ensures r.Megabytes? ==> r.bytes == filesize.value
  {
    if filesize.Some? && filesize.value != 0 then Megabytes(filesize.value) else NotAvailable
  }

  /** `int(f.get('height', 0))`, with 0 kept when the conversion raises (a None height). */
  function VideoHeight(f: RawFormat): (h: int)
    ensures !f.height.Val? ==> h == 0
  {
    if f.height.Val? then f.height.v else 0
  }

  /** `f.get('format_note', f.get('resolution', 'Unknown Video'))`. */
  function VideoQuality(f: RawFormat): Option<string> {
    match f.formatNote
    case Absent => GetOr(f.resolution, "Unknown Video")
    case Null => None
    case Val(note) => Some(note)
  }

  /** The f-string rendering of `f.get('acodec', '?')`: None prints as "None". */
  function CodecText(acodec: Entry<string>): string {
    match acodec
    case Absent => "?"
    case Null => "None"
    case Val(c) => c
  }

  /** The audio label: the format note, else `~{abr}kbps`, else `Audio ({acodec})`. */
  function AudioQuality(f: RawFormat): (q: string)
    ensures q != ""
    ensures TruthyText(f.formatNote) ==> q == f.formatNote.v
    ensures !TruthyText(f.formatNote) && f.abr.Val? ==> q == "~" + IntToString(f.abr.v) + "kbps"
    ensures !TruthyText(f.formatNote) && !f.abr.Val? ==> q == "Audio (" + CodecText(f.acodec) + ")"
  {
    if TruthyText(f.formatNote) then f.formatNote.v
    else if f.abr.Val? then "~" + IntToString(f.abr.v) + "kbps"
    else "Audio (" + CodecText(f.acodec) + ")"
  }

  function VideoEntry(f: RawFormat): (v: VideoFormat)
    requires IsVideo(f)
    ensures v.id != "" && v.url != ""
    ensures v.vcodec != Some("none")
    ensures NonEmpty(v.resolution) || v.height != 0
  {
    var filesize := Filesize(f);
    VideoFormat(VideoQuality(f), Get(f.resolution), SizeOf(filesize), f.formatId.v, Get(f.vcodec),
                Get(f.acodec), GetOr(f.ext, "mp4"), f.url.v, VideoHeight(f), Get(f.fps),
                Get(f.protocol), filesize)
  }

  function AudioEntry(f: RawFormat): (a: AudioFormat)
    requires IsAudio(f)
    ensures a.id != "" && a.url != "" && a.quality != ""
    ensures a.acodec != Some("none")
    ensures a.abr.Some? <==> f.abr.Val?
  {
    var filesize := Filesize(f);
    AudioFormat(AudioQuality(f), Get(f.abr), SizeOf(filesize), filesize, f.formatId.v, Get(f.acodec),
                GetOr(f.ext, "m4a"), f.url.v, Get(f.protocol))
  }

  /** The video entries in the order the loop appends them. */
  function VideoEntries(fs: seq<RawFormat>): seq<VideoFormat> {
    if fs == [] then []
    else
      var last := fs[|fs| - 1];
      VideoEntries(fs[..|fs| - 1]) + (if IsVideo(last) then [VideoEntry(last)] else [])
  }

  /** The audio entries in the order the loop appends them. */
  function AudioEntries(fs: seq<RawFormat>): seq<AudioFormat> {
    if fs == [] then []
    else
      var last := fs[|fs| - 1];
      AudioEntries(fs[..|fs| - 1]) + (if IsAudio(last) then [AudioEntry(last)] else [])
  }

  /** One update of `best_audio_info`: a numeric bitrate replaces the current
      choice when it beats the current choice's numeric bitrate, or -1 when
      there is none; a record without one is taken only while nothing is chosen. */
  function Consider(best: Option<AudioFormat>, a: AudioFormat): Option<AudioFormat> {
    if a.abr.Some? then
      var bestSoFar := if best.Some? && best.value.abr.Some? then best.value.abr.value else -1;
      if a.abr.value > bestSoFar then Some(a) else best
    else if best.None? then Some(a)
    else best
  }

  /** `best_audio_info` after the loop has seen the audio entries `audio`. */
  function BestAudio(audio: seq<AudioFormat>): Option<AudioFormat> {
    if audio == [] then None else Consider(BestAudio(audio[..|audio| - 1]), audio[|audio| - 1])
  }

  /** `final_audio_summary`. */
  function Summarize(best: Option<AudioFormat>): (r: Option<AudioSummary>)
    ensures r.Some? <==> best.Some?
    ensures best.Some? ==> r.value.id == best.value.id && r.value.ext == best.value.ext
    ensures best.Some? ==> r.value.quality == "Audio Only (" + best.value.quality + ")"
  {
    match best
    case None => None
    case Some(a) => Some(AudioSummary("Audio Only (" + a.quality + ")", a.size, a.id, a.ext))
  }

  /** `x.get('fps') or 0`. */
  function FpsOrZero(v: VideoFormat): int {
    if v.fps.Some? then v.fps.value else 0
  }

  /** The video sort key `(-height, -(fps or 0))`. */
  function VideoKey(v: VideoFormat): Key {
    Key(-v.height, -FpsOrZero(v))
  }

  /** The audio bitrate as the sort sees it: a missing bitrate counts as -1. */
  function AbrRank(a: AudioFormat): int {
    if a.abr.Some? then a.abr.value else -1
  }

  /** The audio sort key `-(abr or -1)`. */
  function AudioKey(a: AudioFormat): Key {
    Key(-AbrRank(a), 0)
  }

  /** Each kept video entry comes from a video record of the input, and every
      video record of the input is kept. */
  lemma {:induction false} VideoEntriesFromInput(fs: seq<RawFormat>)
    ensures forall v :: v in VideoEntries(fs) ==> exists i :: 0 <= i < |fs| && IsVideo(fs[i]) && VideoEntry(fs[i]) == v
    ensures forall i :: 0 <= i < |fs| && IsVideo(fs[i]) ==> VideoEntry(fs[i]) in VideoEntries(fs)
  {
    if fs != [] {
      var init := fs[..|fs| - 1];
      VideoEntriesFromInput(init);
      forall v | v in VideoEntries(fs) ensures exists i :: 0 <= i < |fs| && IsVideo(fs[i]) && VideoEntry(fs[i]) == v {
        if v in VideoEntries(init) {
          var i :| 0 <= i < |init| && IsVideo(init[i]) && VideoEntry(init[i]) == v;
          assert fs[i] == init[i];
        } else {
          assert IsVideo(fs[|fs| - 1]) && VideoEntry(fs[|fs| - 1]) == v;
        }
      }
      forall i | 0 <= i < |fs| && IsVideo(fs[i]) ensures VideoEntry(fs[i]) in VideoEntries(fs) {
        if i < |fs| - 1 {
          assert fs[i] == init[i];
        }
      }
    }
  }

  /** Each kept audio entry comes from an audio record of the input, and every
      audio record of the input is kept. */
  lemma {:induction false} AudioEntriesFromInput(fs: seq<RawFormat>)
    ensures forall a :: a in AudioEntries(fs) ==> exists i :: 0 <= i < |fs| && IsAudio(fs[i]) && AudioEntry(fs[i]) == a
    ensures forall i :: 0 <= i < |fs| && IsAudio(fs[i]) ==> AudioEntry(fs[i]) in AudioEntries(fs)
  {
    if fs != [] {
      var init := fs[..|fs| - 1];
      AudioEntriesFromInput(init);
      forall a | a in AudioEntries(fs) ensures exists i :: 0 <= i < |fs| && IsAudio(fs[i]) && AudioEntry(fs[i]) == a {
        if a in AudioEntries(init) {
          var i :| 0 <= i < |init| && IsAudio(init[i]) && AudioEntry(init[i]) == a;
          assert fs[i] == init[i];
        } else {
          assert IsAudio(fs[|fs| - 1]) && AudioEntry(fs[|fs| - 1]) == a;
        }
      }
      forall i | 0 <= i < |fs| && IsAudio(fs[i]) ensures AudioEntry(fs[i]) in AudioEntries(fs) {
        if i < |fs| - 1 {
          assert fs[i] == init[i];
        }
      }
    }
  }

  /** No record is both: the two lists together are at most as long as the input. */
  lemma {:induction false} EntriesDisjoint(fs: seq<RawFormat>)
    ensures |VideoEntries(fs)| + |AudioEntries(fs)| <= |fs|
  {
    if fs != [] {
      EntriesDisjoint(fs[..|fs| - 1]);
    }
  }

  /** The sorted video list: height descending, then fps descending (missing fps as 0). */
  lemma VideoOrder(vs: seq<VideoFormat>)
    ensures var r := SortByKey(vs, VideoKey);
            forall i, j :: 0 <= i < j < |r| ==>
              r[i].height > r[j].height || (r[i].height == r[j].height && FpsOrZero(r[i]) >= FpsOrZero(r[j]))
  {
    SortByKeySorted(vs, VideoKey);
  }

  /** The sorted audio list: bitrate descending, a missing bitrate ranking as -1. */
  lemma AudioOrder(as_: seq<AudioFormat>)
    ensures var r := SortByKey(as_, AudioKey);
            forall i, j :: 0 <= i < j < |r| ==> AbrRank(r[i]) >= AbrRank(r[j])
  {
    SortByKeySorted(as_, AudioKey);
  }

  /** Facts about the running choice that every step keeps. */
  lemma {:induction false} BestAudioBounds(audio: seq<AudioFormat>)
    ensures BestAudio(audio).Some? ==> BestAudio(audio).value in audio
    ensures BestAudio(audio).Some? && BestAudio(audio).value.abr.Some? ==>
              BestAudio(audio).value.abr.value >= 0 &&
              forall j :: 0 <= j < |audio| && audio[j].abr.Some? ==> audio[j].abr.value <= BestAudio(audio).value.abr.value
    ensures BestAudio(audio).None? || BestAudio(audio).value.abr.None? ==>
              forall j :: 0 <= j < |audio| && audio[j].abr.Some? ==> audio[j].abr.value < 0
    ensures BestAudio(audio).None? ==> forall j :: 0 <= j < |audio| ==> audio[j].abr.Some?
  {
    if audio != [] {
      var init := audio[..|audio| - 1];
      BestAudioBounds(init);
      assert forall j :: 0 <= j < |init| ==> audio[j] == init[j];
    }
  }

  /** With some non-negative numeric bitrate present, the choice is the first
      entry carrying the largest one (the comparison is a strict `>`). */
  lemma {:induction false} BestAudioIsFirstMaximum(audio: seq<AudioFormat>, i: nat)
    requires i < |audio| && audio[i].abr.Some? && audio[i].abr.value >= 0
    requires forall j :: 0 <= j < |audio| && audio[j].abr.Some? ==> audio[j].abr.value <= audio[i].abr.value
    requires forall j :: 0 <= j < i ==> audio[j].abr != audio[i].abr
    ensures BestAudio(audio) == Some(audio[i])
  {
    var n := |audio|;
    var init := audio[..n - 1];
    if i < n - 1 {
      BestAudioIsFirstMaximum(init, i);
    } else {
      BestAudioBounds(init);
      var prev := BestAudio(init);
      if prev.Some? && prev.value.abr.Some? {
        var j :| 0 <= j < |init| && init[j] == prev.value;
        assert audio[j] == prev.value;
      }
    }
  }

  /** With no non-negative numeric bitrate, the choice is the first entry
      without a numeric bitrate. */
  lemma {:induction false} BestAudioIsFirstUnrated(audio: seq<AudioFormat>, i: nat)
    requires forall j :: 0 <= j < |audio| && audio[j].abr.Some? ==> audio[j].abr.value < 0
    requires i < |audio| && audio[i].abr.None?
    requires forall j :: 0 <= j < i ==> audio[j].abr.Some?
    ensures BestAudio(audio) == Some(audio[i])
  {
    var n := |audio|;
    var init := audio[..n - 1];
    if i < n - 1 {
      BestAudioIsFirstUnrated(init, i);
    } else {
      BestAudioNone(init);
    }
  }

  /** No choice is made exactly when every entry has a negative numeric bitrate
      (vacuously, when there are no audio entries). */
  lemma {:induction false} BestAudioNone(audio: seq<AudioFormat>)
    ensures BestAudio(audio).None? <==> forall j :: 0 <= j < |audio| ==> audio[j].abr.Some? && audio[j].abr.value < 0
  {
    BestAudioBounds(audio);
    if audio != [] {
      var init := audio[..|audio| - 1];
      BestAudioNone(init);
      assert forall j :: 0 <= j < |init| ==> audio[j] == init[j];
    }
  }

  /** Every returned video entry has a video codec other than 'none', an id and a url. */
  lemma SortedVideoValid(formats: seq<RawFormat>)
    ensures forall v :: v in SortByKey(VideoEntries(formats), VideoKey) ==> v.vcodec != Some("none") && v.id != "" && v.url != ""
  {
    VideoEntriesFromInput(formats);
    SortByKeyMembers(VideoEntries(formats), VideoKey);
  }

  /** Every returned audio entry has an audio codec other than 'none', an id and a url. */
  lemma SortedAudioValid(formats: seq<RawFormat>)
    ensures forall a :: a in SortByKey(AudioEntries(formats), AudioKey) ==> a.acodec != Some("none") && a.id != "" && a.url != ""
  {
    AudioEntriesFromInput(formats);
    SortByKeyMembers(AudioEntries(formats), AudioKey);
  }

  /** The summary is null exactly when every returned audio entry has a negative bitrate. */
  lemma SummaryAbsent(formats: seq<RawFormat>)
    ensures Summarize(BestAudio(AudioEntries(formats))).None? <==>
            forall a :: a in SortByKey(AudioEntries(formats), AudioKey) ==> a.abr.Some? && a.abr.value < 0
  {
    var unsorted := AudioEntries(formats);
    BestAudioNone(unsorted);
    SortByKeyMembers(unsorted, AudioKey);
    assert (forall a :: a in unsorted ==> a.abr.Some? && a.abr.value < 0) <==>
           (forall j :: 0 <= j < |unsorted| ==> unsorted[j].abr.Some? && unsorted[j].abr.value < 0);
  }

  /** `extract_formats(info_dict)` for `info_dict['formats'] == formats`. */
  method ExtractFormats(formats: seq<RawFormat>) returns (video: seq<VideoFormat>, audio: seq<AudioFormat>, best: Option<AudioSummary>)
    ensures video == SortByKey(VideoEntries(formats), VideoKey)
    ensures audio == SortByKey(AudioEntries(formats), AudioKey)
    ensures best == Summarize(BestAudio(AudioEntries(formats)))
    ensures multiset(video) == multiset(VideoEntries(formats))
    ensures multiset(audio) == multiset(AudioEntries(formats))
    ensures forall v :: v in video ==> v.vcodec != Some("none") && v.id != "" && v.url != ""
    ensures forall a :: a in audio ==> a.acodec != Some("none") && a.id != "" && a.url != ""
    ensures forall i, j :: 0 <= i < j < |video| ==>
              video[i].height > video[j].height || (video[i].height == video[j].height && FpsOrZero(video[i]) >= FpsOrZero(video[j]))
    ensures forall i, j :: 0 <= i < j < |audio| ==> AbrRank(audio[i]) >= AbrRank(audio[j])
    ensures best.None? <==> forall a :: a in audio ==> a.abr.Some? && a.abr.value < 0
  {
    video, audio := [], [];
    var bestAudio: Option<AudioFormat> := None;
    for n := 0 to |formats|
      invariant video == VideoEntries(formats[..n])
      invariant audio == AudioEntries(formats[..n])
      invariant bestAudio == BestAudio(audio)
    {
      assert formats[..n + 1][..n] == formats[..n];
      var f := formats[n];
      if !TruthyText(f.url) || !TruthyText(f.formatId) {
        continue;
      }
      if TruthyFlag(f.isLive) {
        continue;
      }
      if f.vcodec != Val("none") && (TruthyText(f.resolution) || TruthyNumber(f.height)) {
        video := video + [VideoEntry(f)];
      } else if f.acodec != Val("none") && f.vcodec == Val("none") {
        var entry := AudioEntry(f);
        var seen := audio;
        audio := audio + [entry];
        assert audio[..|audio| - 1] == seen;
        if f.abr.Val? {
          var bestAbrSoFar := -1;
          if bestAudio.Some? && bestAudio.value.abr.Some? {
            bestAbrSoFar := bestAudio.value.abr.value;
          }
          if f.abr.v > bestAbrSoFar {
            bestAudio := Some(entry);
          }
        } else if bestAudio.None? {
          bestAudio := Some(entry);
        }
      }
    }
    assert formats[..|formats|] == formats;
    var unsortedVideo, unsortedAudio := video, audio;
    video := SortByKey(unsortedVideo, VideoKey);
    audio := SortByKey(unsortedAudio, AudioKey);
    best := Summarize(bestAudio);
    VideoOrder(unsortedVideo);
    AudioOrder(unsortedAudio);
    SortedVideoValid(formats);
    SortedAudioValid(formats);
    SummaryAbsent(formats);
  }
}
