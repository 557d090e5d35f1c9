# YouTube downloader: a verified model of its core

The system is a small web application. A Flask backend (`app.py`) asks
yt-dlp for the formats of a YouTube video, then downloads the chosen format
into a scratch directory, merging in an audio stream if needed, and sends
the file back. A browser frontend (`app.js`) validates the URL, lists and
filters the formats, and starts the download.

This Dafny project models the logic of both halves and proves what it
promises:

- **Backend.**
  - The filename sanitiser (`sanitize_filename`).
  - The domain allow-list (`is_supported_url`).
  - The format extractor (`extract_formats`): classification, stable
    sorting, and the running choice of the best audio stream.
  - The formats endpoint (`get_formats`) with its error-text mapping.
  - The download endpoint (`download_video`): format lookup, merge
    decision, final file name, every exit path, and the removal of the
    scratch directory.
- **Frontend.**
  - `formatDuration`, `sanitizeFilename` and the host rule of `isValidUrl`.
  - The page state kept in `currentState` and the DOM, which the handlers
    `resetUI`, `selectFormat`, `filterFormats`, `fetchVideoInfo` and
    `downloadSelectedFormat` update, together with the timer that a download
    sets to re-enable its button.

yt-dlp, `urlparse`, the browser's `URL` constructor, the file system and
`fetch` are not modelled. Each becomes a parameter instead: a function from
the URL to the parsed host, an `Extraction` value for what yt-dlp returns or
raises, a `Steps` record for how each file-system step ends, and an
`Option<Fetched>` for the reply of the formats endpoint.

Modules, one per file:

| file | module | models |
|---|---|---|
| text.dfy | `Text` | options, Python dict entries (missing / None / value), substring tests, lower-casing, decimal digits |
| sanitize.dfy | `Sanitize` | `sanitize_filename`, `os.path.splitext` |
| allow_list.dfy | `AllowList` | `SUPPORTED_DOMAINS`, `is_supported_url` |
| stable_sort.dfy | `StableSort` | `list.sort(key=...)` as a stable insertion sort |
| formats.dfy | `Formats` | `extract_formats` |
| error_text.dfy | `ErrorText` | the error-message table of `get_formats` |
| formats_route.dfy | `FormatsRoute` | `get_formats` |
| download.dfy | `Download` | `download_video` and its scratch directory |
| client_text.dfy | `ClientText` | `formatDuration`, `sanitizeFilename` |
| client_url.dfy | `ClientUrl` | `isValidUrl` |
| client_page.dfy | `ClientPage` | the page state and its handlers |

Where the code and the system's specification disagree, the model follows
the code:

- **Best audio.** The specification picks the audio stream with the highest
  known bitrate. The code compares each numeric bitrate with the current
  best, or with -1 when there is none. So a negative bitrate is never
  chosen, and when every audio stream has a negative numeric bitrate there
  is no best audio at all (`Formats.BestAudioNone`).
- **Error messages.** The specification lists a bot-verification message and
  a retry with another client profile. The code has neither.
- **Error status.** Every mapped yt-dlp error gets status 400, not
  "400/500".
- **Internal errors.** The three error texts the endpoint raises itself
  match none of the table's patterns. So they reach the user as the generic
  message (`ErrorText.InternalTextsAreGeneric`).
- **Download route.** `download_video` does not check the allow-list. It only
  adds a scheme to the URL.
- **Scratch cleanup.** The specification says the scratch directory is
  always removed. The code swallows a failing `rmtree`, so the directory
  stays when removal fails. The model proves removal whenever `rmtree`
  succeeds. It also proves that exactly one removal is attempted on every
  path.
- **Frontend and backend URL rules.** The two differ on a text that starts
  with "http" but has no scheme (`ClientUrl.SchemeRulesAgree`). Their host
  lists accept exactly the same hosts (`ClientUrl.ClientHostsAgree`).

## Model

| member | source | states |
|---|---|---|
| Sanitize.RemoveForbidden | app.py:54 | the result has none of the nine characters `\ / * ? : " < > \|`, is no longer than the input, and a text without them is left unchanged |
| Sanitize.CollapseRuns | app.py:55 | the result is empty exactly when the input is, and starts with '_' exactly when the input starts with whitespace or '_' |
| Sanitize.CollapseRunsSafe | app.py:55 | after collapsing there is no whitespace and no "__", and no forbidden character appears that was not there before |
| Sanitize.Strip | app.py:56 | the result is a slice of the input that neither starts nor ends with '_' or ' ' |
| Sanitize.StripKeepsSafety | app.py:56 | stripping keeps "no forbidden character, no whitespace, no __" |
| Sanitize.CutKeepsSafety | app.py:57 | truncating to 150 characters keeps those guarantees and a first character other than '_' |
| Sanitize.CleanedSafe | app.py:54-57 | the four cleaning steps give either nothing or a safe name |
| Sanitize.DefaultNameIsClean | app.py:58 | "downloaded_video" is a safe name that does not end in '_' |
| Sanitize.SanitizeFilename | app.py:52-59 | every result is 1 to 150 characters long, has no forbidden character, no whitespace, no "__" and no leading '_'; it is "downloaded_video" exactly when cleaning leaves nothing, and the cleaned text otherwise |
| Sanitize.CollapseKeepsClean | app.py:55 | a text without whitespace or "__" is left unchanged by the collapse |
| Sanitize.SanitizeFixedPoint | app.py:52-59 | sanitising leaves a text unchanged exactly when it is a safe name that does not end in '_' |
| Sanitize.SanitizeTwiceIff | app.py:56-57 | sanitising a result again changes it exactly when it ends in '_', because the truncation runs after the strip |
| Sanitize.CleanedSafeName | app.py:54-56 | on a safe name, cleaning only strips |
| Sanitize.StripTrailingUnderscore | app.py:56 | a safe name ending in '_' loses exactly that one character to the strip |
| Sanitize.SanitizeSafeName | app.py:52-59 | sanitising a safe name drops a trailing '_' and nothing else, and gives a name that no longer changes |
| Sanitize.SanitizeStabilises | app.py:52-59 | the second pass always reaches a fixed point |
| Sanitize.SplitExt | app.py:214 | `splitext` splits the path into two parts that concatenate back to it; the extension is empty or a '.' followed by no '.' or '/' |
| AllowList.WithScheme | app.py:42-43 | a URL starting with "http://" or "https://" is kept, any other gets "https://" in front, and the result always has a scheme |
| AllowList.IsSupportedUrl | app.py:37-50 | an empty URL and a URL that fails to parse are rejected; a URL that parses is accepted exactly when its lower-cased network location equals some entry or ends with "." + entry |
| AllowList.MatchesEntry | app.py:46 | the test of one entry: the host equals it or ends with "." + it (`SubdomainEntry` and `HostSupportedBase` state what it accepts) |
| AllowList.HostSupported | app.py:46-47 | some entry of the list matches; `AnyMatchExists` proves the `any` is this existential and `HostSupportedBase` reduces it to the three base domains |
| AllowList.AnyMatchExists | app.py:46-47 | the `any` over the list holds exactly when some entry matches |
| AllowList.SubdomainEntry | app.py:46 | a host matching "prefix.base" also matches "base" |
| AllowList.SlashCarries | app.py:29 | only a host containing '/' can match the entry that is a full URL |
| AllowList.EntryReduces | app.py:26-34 | each of the ten entries is matched only by hosts that match youtube.com, youtu.be or youtube-nocookie.com, or that contain a '/' |
| AllowList.HostSupportedBase | app.py:26-47 | a host without '/' is accepted exactly when it is, or is a subdomain of, one of the three base domains |
| AllowList.AcceptSubdomain | app.py:46-47 | any subdomain of a base domain is accepted |
| AllowList.HostExamples | app.py:26-47 | youtube.com, m.youtube.com, youtu.be and music.youtube.com are accepted; vimeo.com and notyoutube.com are rejected |
| AllowList.RejectVimeo | app.py:46-47 | vimeo.com is rejected |
| AllowList.RejectLookalike | app.py:46-47 | notyoutube.com is rejected: a suffix match needs the '.' in front |
| AllowList.AcceptKelvinSign | app.py:44 | a host spelled with the Kelvin sign (U+212A) for its 'k' lower-cases to "youtube-nocookie.com" and is accepted, as Python's `lower()` makes it |
| AllowList.BareHostScheme | app.py:42-43 | "youtube.com" gets the https scheme |
| AllowList.SchemeKept | app.py:42-43 | "https://youtu.be/abc" keeps its scheme |
| AllowList.AcceptBareHost | app.py:37-47 | the URL "youtube.com" is accepted |
| AllowList.AcceptShortLink | app.py:37-47 | the URL "https://youtu.be/abc" is accepted |
| AllowList.RejectOtherSite | app.py:37-47 | the URL "vimeo.com" is rejected |
| StableSort.Insert | app.py:106-107 | inserting adds exactly the one element: the result is a permutation of the list plus it |
| StableSort.SortByKey | app.py:106-107 | the sorted list is a permutation of the input |
| StableSort.SortByKeyMembers | app.py:106-107 | sorting neither adds nor drops an element |
| StableSort.InsertSorted | app.py:106-107 | insertion keeps a list ordered by the key |
| StableSort.InsertWithKey | app.py:106-107 | insertion puts the new element in front of every element that shares its key |
| StableSort.SortByKeySorted | app.py:106-107 | the sorted list is ordered by the key |
| StableSort.SortByKeyStable | app.py:106-107 | for every key, the elements with that key keep their input order |
| StableSort.SortedUnique | app.py:106-107 | two ordered lists with the same elements per key, in the same order, are equal |
| StableSort.StableSortIsSortByKey | app.py:106-107 | any ordered list that keeps each key's elements in input order is this sort's result, so Python's sort gives the same list |
| Formats.Downloadable | app.py:68-70 | a format is considered only with a truthy url and format_id and without a truthy is_live |
| Formats.IsVideo | app.py:77 | a considered format is a video when its vcodec is not 'none' and its resolution or height is truthy (`EntriesDisjoint` and `VideoEntriesFromInput` use it) |
| Formats.IsAudio | app.py:89 | a considered format that is not a video is audio when its acodec is not 'none' and its vcodec is 'none' |
| Formats.SizeOf | app.py:72-73 | a size in megabytes is shown exactly for a present, non-zero byte count, and the label keeps that byte count |
| Formats.VideoQuality | app.py:81 | the video label: the format note when the key exists (a null note stays null), else the resolution, else "Unknown Video" |
| Formats.VideoHeight | app.py:78-79 | the height is 0 when the key is missing or None |
| Formats.AudioQuality | app.py:90-92 | the audio label is the format note, else "~{abr}kbps" for a numeric bitrate, else "Audio ({acodec})", and is never empty |
| Formats.VideoEntry | app.py:81-87 | a video entry has an id, a url, a video codec other than 'none', and a resolution or a non-zero height |
| Formats.AudioEntry | app.py:93-97 | an audio entry has an id, a url, a non-empty label, an audio codec other than 'none', and a bitrate exactly when the record has one |
| Formats.VideoEntries | app.py:66-87 | the video dicts in input order; `VideoEntriesFromInput` states exactly which records they come from |
| Formats.AudioEntries | app.py:66-98 | the audio dicts in input order; `AudioEntriesFromInput` states exactly which records they come from |
| Formats.Consider | app.py:99-104 | one step of the best-audio choice: a numeric bitrate replaces the best when it exceeds the best's numeric bitrate, or -1 without one; a format without a bitrate is taken only when there is no best yet |
| Formats.BestAudio | app.py:99-104 | the choice after the whole list; `BestAudioBounds`, `BestAudioIsFirstMaximum`, `BestAudioIsFirstUnrated` and `BestAudioNone` characterise it |
| Formats.Summarize | app.py:109-110 | the summary exists exactly when a best audio exists; it carries its id and extension, and its quality is "Audio Only (" + quality + ")" |
| Formats.VideoEntriesFromInput | app.py:66-87 | each video entry comes from a video record of the input, and every video record is kept |
| Formats.AudioEntriesFromInput | app.py:66-98 | each audio entry comes from an audio record of the input, and every audio record is kept |
| Formats.EntriesDisjoint | app.py:77-89 | no record yields two entries: the two lists together are no longer than the input |
| Formats.VideoOrder | app.py:106 | the sorted videos go by height descending, then fps descending, with a missing fps as 0 |
| Formats.AudioOrder | app.py:107 | the sorted audio goes by bitrate descending, with a missing bitrate ranked as -1 |
| Formats.BestAudioBounds | app.py:99-104 | the best audio is one of the entries; a chosen bitrate is non-negative and no entry's numeric bitrate exceeds it; a best without a bitrate means every numeric bitrate is negative |
| Formats.BestAudioIsFirstMaximum | app.py:100-103 | with a non-negative numeric bitrate present, the best is the first entry with the largest one |
| Formats.BestAudioIsFirstUnrated | app.py:104 | with no non-negative numeric bitrate, the best is the first entry without a bitrate |
| Formats.BestAudioNone | app.py:99-104 | there is no best audio exactly when every audio entry has a negative numeric bitrate |
| Formats.SortedVideoValid | app.py:77-87 | every returned video entry has a video codec other than 'none', an id and a url |
| Formats.SortedAudioValid | app.py:89-98 | every returned audio entry has an audio codec other than 'none', an id and a url |
| Formats.SummaryAbsent | app.py:99-110 | the summary is null exactly when every returned audio entry has a negative bitrate |
| Formats.ExtractFormats | app.py:62-111 | the loop returns the stably sorted video and audio entries (permutations of the kept records, in the proved orders) and the summary of the first-maximum best audio |
| ErrorText.FriendlyMessage | app.py:153-159 | the if/elif chain over the error text, tested in the source's order; `FriendlyMessageIsFirstMatch` proves it is the first-match lookup in the table |
| ErrorText.FriendlyMessageIsFirstMatch | app.py:153-159 | the if/elif chain is the first-match lookup in the ordered table of patterns |
| ErrorText.FirstMatchWins | app.py:153-159 | when a rule is the first to match, its message is the answer |
| ErrorText.FirstMatchNone | app.py:159 | with no matching rule, the answer is the generic message |
| ErrorText.FirstMatchSome | app.py:153-158 | when some rule matches, the answer is the message of the first one that does |
| ErrorText.FriendlyFallbackIff | app.py:153-159 | the generic message comes out exactly when no pattern occurs in the error text |
| ErrorText.MessagesDistinct | app.py:153-159 | the messages are pairwise different, so the answer identifies the rule |
| ErrorText.UnsupportedOutranks | app.py:153 | "Unsupported URL" wins over every later pattern |
| ErrorText.GenericWithoutMarkers | app.py:153-159 | a text without the characters that all patterns need maps to the generic message |
| ErrorText.InternalTextsAreGeneric | app.py:128-142 | the three texts the endpoint raises itself map to the generic message |
| FormatsRoute.GetFormats | app.py:114-164 | a missing URL gives 400 "Missing 'url' parameter"; an unsupported one gives 400 "Invalid or unsupported URL."; a yt-dlp error gives 400 with its mapped message; anything unexpected gives 500; no formats gives 400 with the generic message; otherwise the title (default "Untitled Video"), both sorted lists and the summary |
| Download.FirstWithId | app.py:195-196 | the lookup finds a record carrying the id, and no earlier record carries it |
| Download.FindFormat | app.py:195-197 | the loop returns the first record whose id matches, or none |
| Download.FirstWithIdUnique | app.py:195-197 | any answer with those two properties is FirstWithId's answer |
| Download.FinalFilename | app.py:214-216 | the final name is a safe name, then '.', then the extension; with an extension free of forbidden characters, it has none either |
| Download.NeedsMerge | app.py:202 | a merge is needed exactly for a vcodec other than 'none' together with acodec 'none' |
| Download.ExtText | app.py:200 | the record's extension: "mp4" when the key is missing, and "None" for a null one, as the f-string renders it |
| Download.Decide | app.py:199-216 | a merge happens exactly for a video-only record; a merge asks for id + "+bestaudio/bestaudio" in mkv, otherwise for the id in the record's extension (default "mp4"); the name is FinalFilename of that extension |
| Download.MergedNameEndsMkv | app.py:205-216 | a merged download's name ends in ".mkv" |
| Download.FinalNameHasNoSeparator | app.py:214-216 | for an extension without forbidden characters, the final name has no '/' or '\\', so the file stays in the scratch directory |
| Download.DownloadFailureMessage | app.py:249-252 | the ffmpeg message is used exactly when merging and the error text mentions ffmpeg or ffprobe in any case; otherwise the error text is prefixed |
| Download.ErrorResponse | app.py:319-324 | a yt-dlp error gives 500 "Download preparation failed: …", an abort keeps its code and description, anything else gives 500 "Server download failed unexpectedly." |
| Download.AfterPlan | app.py:241-306 | the file is sent, under the planned name, exactly when download, glob, rename, existence check and `send_file` all succeed; every abort on the way has status 500 |
| Download.Run | app.py:192-306 | the route after the parameter check and `mkdtemp`: extraction, lookup, plan and the steps after it; `RunSends` states when it sends a file |
| Download.Respond | app.py:168-324 | the route's response from its arguments and the outcome of each step; `FailureStatus`, `SentName` and `UnknownFormatReported` state its cases and `DownloadVideo` returns it |
| Download.FailureStatus | app.py:175-324 | every error response has status 400 when a parameter is missing and 500 otherwise |
| Download.SentName | app.py:194-216 | a sent file comes from a successful extraction and the first record with the requested id, under the name planned for it |
| Download.RunSends | app.py:192-306 | the steps after the scratch directory reach `send_file` only through that record and its plan |
| Download.UnknownFormatReported | app.py:197 | an id that no record carries ends in 500 "Download preparation failed: Format ID … not found for URL." |
| Download.Scratch.MkdTemp | app.py:183 | a successful `mkdtemp` adds one new directory that did not exist; a failing one changes nothing |
| Download.Scratch.RemoveIfExists | app.py:296-303 | removal is attempted only on an existing directory; a successful `rmtree` deletes exactly that directory; a failure is swallowed |
| Download.DownloadVideo | app.py:168-324 | the response is the modelled response of the route; when the scratch directory was made, exactly one removal of that new directory is attempted on every path, and a successful one leaves the set of directories as it was; otherwise nothing is made or removed |
| ClientText.Pad2 | app.js:60 | `padStart(2, '0')` gives digits only, exactly two for a number below 100 |
| ClientText.FormatDuration | app.js:53-63 | a non-number, zero or negative input gives "0:00"; otherwise the clock of the input rounded down |
| ClientText.ClockFields | app.js:55-58 | the hours, minutes and seconds recombine to the total seconds, with minutes and seconds below 60 |
| ClientText.ClockRoundTrip | app.js:59-62 | the clock has three fields from one hour on and two below, the later fields have two digits, and reading it back gives the total |
| ClientText.HoursRoundTrip | app.js:59-60 | `H:MM:SS` reads back to the total |
| ClientText.MinutesRoundTrip | app.js:62 | `M:SS` reads back to the total |
| ClientText.FormatDurationRoundTrip | app.js:53-63 | reading the rendered duration back gives the whole seconds of a positive number, and 0 otherwise |
| ClientText.ReplaceChar | app.js:120 | an allowed character (`[a-z0-9._-]`, any ASCII case) is kept; any other becomes one '_' per UTF-16 code unit, so two for a character above U+FFFF, since the regular expression has no `u` flag |
| ClientText.ReplaceDisallowed | app.js:120 | the replacement gives one allowed character per UTF-16 code unit of the input |
| ClientText.ReplaceConcat | app.js:120 | the replacement of a concatenation is the concatenation of the replacements |
| ClientText.ReplaceAt | app.js:120 | character i of the input becomes exactly the characters at its UTF-16 offset in the result |
| ClientText.ReplaceAllowed | app.js:120 | a text of allowed characters is left as it is |
| ClientText.ReplaceBmp | app.js:120 | within the Basic Multilingual Plane the replacement keeps the length, keeps each allowed character and puts '_' in place of each other one |
| ClientText.ClientSanitize | app.js:118-121 | the result is the first min(UTF-16 length, 100) characters of the replacement, all allowed and each one code unit, so the cut in code units is a cut in characters |
| ClientText.ClientSanitizeBmp | app.js:118-121 | for a title within the Basic Multilingual Plane the result has min(length, 100) characters; allowed characters keep their place and each other one becomes '_' |
| ClientText.ClientSanitizeAstral | app.js:118-121 | an emoji (U+1F600) becomes "__", and "a" + emoji + "b" becomes "a__b" |
| ClientText.ClientSanitizeIdempotent | app.js:118-121 | sanitising twice is sanitising once |
| ClientText.ClientSanitizeFixedPoint | app.js:118-121 | a name is left unchanged exactly when it has at most 100 characters, all allowed |
| ClientUrl.ClientWithScheme | app.js:94 | text starting with "http" is kept, other text gets "https://" in front |
| ClientUrl.ClientMatches | app.js:102 | the test of one frontend entry: the host equals it, or the entry contains a '.' and the host ends with "." + it |
| ClientUrl.ClientHostSupported | app.js:97-102 | some frontend entry matches; `ClientHostsAgree` proves it is the backend's host rule |
| ClientUrl.ClientMatchesIsBackendMatch | app.js:102 | every frontend entry contains a '.', so the frontend's match is the backend's match |
| ClientUrl.ClientEntryAccepted | app.js:97-102 | a host accepted by a frontend entry is accepted by the backend |
| ClientUrl.BackendEntryAccepted | app.js:97-102 | a host accepted by a backend entry is accepted by the frontend, "m.youtu.be" through "youtu.be" |
| ClientUrl.ClientHostsAgree | app.js:97-102 | the frontend accepts exactly the hosts the backend accepts |
| ClientUrl.ClientIsValidUrl | app.js:91-104 | an empty input is rejected; otherwise the URL is valid exactly when the parser gives a host whose lower-cased form the backend's host rule accepts |
| ClientUrl.SchemeRulesAgree | app.js:94 | the frontend and backend scheme rules agree except on text that starts with "http" but with neither "http://" nor "https://" |
| ClientUrl.ClientAgreesWithBackend | app.js:91-104 | where the scheme rules agree and the hostname is the whole network location, frontend and backend accept the same URLs |
| ClientPage.IsAdaptive | app.js:217 | an HLS or DASH format: its protocol mentions "m3u8" or "dash" |
| ClientPage.VideoFilterKeeps | app.js:224-225 | "hd" keeps a height of at least 720 or a quality mentioning 720, 1080, 1440, 2160 or 4k in any ASCII case; "4k" keeps a height of at least 2160 or a quality mentioning 2160 or 4k; any other value keeps all (`FourKWithinHd` relates the two) |
| ClientPage.AudioFilterKeeps | app.js:232 | "high" keeps a non-zero bitrate of at least 128; any other value keeps all |
| ClientPage.Displayed | app.js:221-234 | the kept formats in stored order; `DisplayedMembers` and `DisplayedIsSubsequence` characterise it and `BuildCards` computes it |
| ClientPage.DisplayedEmbedding | app.js:221-234 | the displayed cards are the stored formats in stored order, some left out (an explicit index embedding) |
| ClientPage.DisplayedIsSubsequence | app.js:221-234 | the displayed list is an order-preserving subsequence of the stored list |
| ClientPage.DisplayedMembers | app.js:217-234 | a format is displayed exactly when it is stored and kept by its filter; an HLS or DASH format is never displayed |
| ClientPage.FourKWithinHd | app.js:224-225 | whatever the "4k" filter keeps, the "hd" filter keeps |
| ClientPage.FourKDisplayedWithinHd | app.js:224-226 | the "4k" cards are a subsequence of the "hd" cards |
| ClientPage.ClientFilename | app.js:282-284 | the requested name is the sanitised title (or "video") of 1 to 100 allowed characters, then '.', then the extension (or "mp4") |
| ClientPage.EmojiTitleFilename | app.js:281-284 | a title made of one emoji asks for "__.mp4" |
| ClientPage.BackendRecoversTitle | app.js:282-284 | for an extension without '.' or '/', the backend's `splitext` removes exactly what the frontend appended and gets the sanitised title back |
| ClientPage.SplitExtOfJoin | app.py:214 | `splitext(base + "." + e)` gives back `base` when `e` has no '.', neither part has '/', and `base` is not all dots |
| ClientPage.BuildCards | app.js:221-234 | one `forEach` displays exactly the kept formats in order and counts them |
| ClientPage.FilteredInvariant | app.js:238-245 | rebuilding the cards keeps the page invariant for a selection that is still visible |
| ClientPage.EmptyInvariant | app.js:132-137 | a page without cards or selection satisfies the invariant |
| ClientPage.Page.constructor | app.js:40-50 | the initial state, after the load handler's `resetUI`: no URL, no formats, no selection, nothing in progress, button disabled, no URL error |
| ClientPage.Page.ResetUI | app.js:124-139 | `resetUI` clears the selection, the in-progress flag and the cards, disables the button, and hides both notices and the URL error |
| ClientPage.Page.SelectFormat | app.js:194-207 | selecting a displayed card records it and enables the download button |
| ClientPage.Page.FilterFormats | app.js:210-246 | the cards are the filtered stored lists; a notice is hidden exactly when its list has cards; a selection whose card is gone is dropped and the button disabled; a visible one is kept |
| ClientPage.Page.FetchVideoInfo | app.js:249-274 | the URL error shows exactly for an invalid URL, which keeps the URL, title, stored lists, cards, notices, selection and button; a valid URL is stored and the page reset; a failed fetch keeps the stored lists and title and shows no cards; a successful reply is stored, titled and filtered, each notice hidden exactly when its list has cards |
| ClientPage.Page.ShowReply | app.js:255-273 | after `showLoading` the page has no selection, nothing in progress and no URL error; a failed fetch (`showError`) keeps the stored lists and title, shows no cards and hides both notices; a reply is stored, titled and filtered, each notice hidden exactly when its list has cards |
| ClientPage.Page.Store | app.js:262-269 | the reply's title (or "N/A") and both format lists are stored |
| ClientPage.Page.TimerFires | app.js:304-307 | the timer re-enables the button and ends the download, whatever the page shows; the invariant is kept, so the button can be enabled with nothing selected |
| ClientPage.Page.DownloadSelectedFormat | app.js:277-315 | without a selection, without a URL, or with a download in progress nothing happens; otherwise the download is marked in progress, the button disabled, and one request sent with the URL, the format id and the built filename |

## Left out

- yt-dlp, `urlparse`, the browser's `URL` constructor, `fetch`, the file system and `send_file` are parameters: their results are inputs to the model.
- Flask routing, CORS, `jsonify`, logging, the health endpoint, and the options dicts passed to yt-dlp are not modelled.
- The `size` string: the float division and the two-decimal rendering are not modelled. Only whether a size is shown, and its byte count, are kept.
- `formatViews`, `formatBytes` and `extractVideoId` are not modelled. They are float formatting and backtracking regexes, and none of them feeds a modelled decision.
- DOM rendering is not modelled: the card HTML, icons, feedback texts, loading and error sections, the clear button, the clipboard and the preview modal.
- When the re-enabling timer fires is not modelled: `TimerFires` may run at any point after a download, but nothing ties it to five seconds or to the download that scheduled it.
- The `catch` of `downloadSelectedFormat` is not modelled. Nothing in the modelled part can throw.
- The formats endpoint's thumbnail, duration, uploader and view count are only passed through, so they are not modelled. A thumbnail entry without 'url' would raise and give status 500; that case is not modelled either.
- Numbers (bitrates, heights, frame rates, sizes) are integers. Float bitrates and float rounding in "~{abr:.0f}kbps" are not modelled.
- Formats.VideoHeight: a height given as a string is not modelled. `int()` of such a string would parse it or raise.
- Lower-casing folds the ASCII capitals and the Kelvin sign, the only characters that lower-case to a different ASCII character. U+0130 lower-cases to an 'i' followed by a combining dot, and every other character to a non-ASCII one. These are kept as they are, because none of them can take part in a match against the ASCII entries and patterns that lower-cased text is compared with.
- Strings are sequences of code points. JavaScript's UTF-16 code units are modelled where they change an answer: the filename replacement and its `substring(0, 100)`. Lone surrogates, which a Dafny string cannot hold, are not modelled.
- The `trim()` of the URL input is assumed already done: `FetchVideoInfo` receives the trimmed text.
- In `get_formats` a falsy info dict, None or an empty dict, raises "No video information extracted.", and the model writes both as `Returned(None)`. `download_video` only calls `.get` on the dict, so there None (`Returned(None)`) fails with "Server download failed unexpectedly." and an empty dict is `Returned(Some(InfoDict(Absent, Absent, Absent)))`, which fails with "Format ID … not found for URL.". In `get_formats` that second encoding gives the same response as `Returned(None)`.
- `formatDuration` on Infinity is not modelled. NaN is falsy and is folded into `JsOther`.
- The `|| 'video'` fallback for the title (app.js:282) cannot be reached, in the source or in the model: a download needs a selection, a selection needs a displayed card, and cards exist only after a successful fetch, which sets the title to the reply's title or "N/A". `ClientFilename` still models the fallback for an empty title.
- ClientPage.Page.SelectFormat: requires the format to be on a displayed card. This holds for its only caller, the card's click handler.
- ClientPage.Page.FetchVideoInfo: the reply is applied before any other handler runs. In the source the `await fetch` (app.js:258) lets the Enter-key handler start a second fetch and lets the download timer fire in between. Overlapping fetches that finish out of order can leave the page with the second URL but the first reply's title and formats, so that a download sends one video's URL with another's format id. The model does not reach that state.
- ClientPage.Page.FetchVideoInfo: all failures of the fetch (network, non-OK status, `success` false) are one `None` reply. The error section's text is not modelled.
- Download.DownloadVideo: the scratch directory is proved removed only when `rmtree` succeeds. A failing `rmtree` is swallowed, so the directory then stays.
- Download.DownloadVideo: the order between streaming the file and the deferred cleanup hook is not modelled. On success the hook's removal is one step after the response is built; on an exception the except block's removal comes before the answer.
- The bot-verification retry is not in the code, so it is not modelled.
