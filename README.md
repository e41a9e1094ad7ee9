# Video splitter core, in Dafny

The server takes an uploaded video, a comma-separated list of time ranges
(`1:00-2:30, 5:00-6:15`) and optionally an output directory. It cuts one clip
per range with ffmpeg. Without an output directory, each clip is registered
under a random id in the process-wide `temp_clips` dictionary, and
`/download/<clip_id>` serves it from there. At exit, `cleanup_temp_files`
removes what is left.

This project models that core and proves properties of it:

- `text.dfy` (module `Text`): the parts of Python's `str` the code relies
  on. These are `isspace`, `strip`, `split` and `join` on one character,
  `rfind`, `replace(':', '_')`, ASCII `lower`, and `str()` of a natural.
- `timestamps.dfy` (module `Timestamps`): `int()`, `parse_timestamp` and
  `parse_timestamp_ranges`. Each `ValueError` becomes an `Err`. The ranges
  are parsed twice over: once as a function of the text (`ParseRanges`), and
  once as the loop the server runs (`ParseTimestampRanges`), which is proved
  equal to it.
- `filenames.dfy` (module `Filenames`): `allowed_file`,
  `posixpath.splitext`, `get_first_word`, and the display name of each clip.
- `clips.dfy` (module `Clips`): the loop of `split_video`, the
  `temp_clips` registry as the class `ClipStore`, `download_clip` and
  `cleanup_temp_files`.
- `wrappers.dfy`: `Option` and `Result`.

ffmpeg is a parameter `cutter: CutRequest -> CutOutcome`. It says how each
run ends: an exit code with stderr, or an exception from starting the
process. The fresh hex suffix of a clip id is chosen by `:|`, among the
suffixes not yet used as keys.

The model follows the code as written, including these behaviours:

- `get_first_word("_.mp4")` is `""`, not `"clip"`. The fallback only
  covers an empty name (`FirstWordLeadingDelimiter`, `FirstWordEmpty`).
- Text made only of commas and blanks gives zero ranges and no error
  (`BlankRanges`).
- When a clip fails in download mode, the clips registered before it stay
  in `temp_clips`. The job's temporary directory is still removed, so
  those entries name a temporary directory that no longer exists
  (`SplitVideo`, `EntriesInTempDir`).
- The first word goes into the clip's path unsanitised. Only
  `posixpath.join` separates it from the output directory (`ClipPathIs`).
  A first word that starts with `/` makes the join drop that directory,
  so the clip is written outside it (`AbsoluteFirstWordEscapes`).

## Model

| member | source | states |
|---|---|---|
| Text.Trim | server.py:514-516 | trimming by a white-space set gives a text no longer than the original, neither starting nor ending with that white space |
| Text.TrimUnchanged | server.py:516 | a text whose ends are not white space of the set is its own trim |
| Text.Strip | server.py:514 | the stripped text is no longer than the text and has no white space at either end |
| Text.StripSpec | server.py:514 | `strip()` keeps the slice between the leading and the trailing white space; that slice has no white space at either end |
| Text.StripUnchanged | server.py:533-534 | a text with no white space at either end strips to itself |
| Text.StripEmpty | server.py:525-527 | a segment strips to empty exactly when it is all white space |
| Text.StripIdempotent | server.py:533-534 | stripping twice (segment parts, then again in `parse_timestamp`) is stripping once |
| Text.Split | server.py:514 | `split(sep)` gives at least one piece and no piece holds the separator |
| Text.JoinSplit | server.py:514 | joining the pieces of `split(sep)` with `sep` gives the text back |
| Text.SplitJoin | server.py:514 | splitting the join of separator-free pieces gives the pieces back |
| Text.SplitHead | server.py:555-561 | `split(d)[0]` is the text before the first `d`; there is more than one piece exactly when `d` occurs |
| Text.SplitChars | server.py:524 | every character of every piece occurs in the split text |
| Text.RFind | server.py:510 | the index of the last occurrence of the character, or -1 when it does not occur |
| Text.ColonsToUnderscores | server.py:664 | same length; each `:` becomes `_`; every other character is kept |
| Text.Lower | server.py:510 | same length; each character is lowered as `str.lower` lowers it into ASCII |
| Text.NatStr | server.py:664 | `str(i)` is a nonempty run of digits with no leading zero |
| Text.DecimalValueNatStr | server.py:664 | reading the digits of `str(n)` gives back `n` |
| Text.NatStrInjective | server.py:664 | different numbers have different decimal texts |
| Timestamps.ParseInt | server.py:516 | `int()` accepts only a text that, with the white space `int()` skips removed (`str.isspace()` without U+001C to U+001F), is nonempty and made of digits and `_` with an optional leading sign; a negative value comes only from a leading `-` |
| Timestamps.SeparatorKept | server.py:516 | `int("1\x1c")` is refused: `int()` does not skip U+001C as `strip()` does |
| Timestamps.ParseIntDigits | server.py:516 | a nonempty run of ASCII digits is read as its decimal value |
| Timestamps.ParseIntNatStr | server.py:516 | `int(str(n)) == n` for every natural `n` |
| Timestamps.ParseIntNoMinus | server.py:516 | `int()` of a text without `-` is never negative |
| Timestamps.SeparatorRejected | server.py:514-516 | `"1\x1c:30"` is refused with the error naming the field `"1\x1c"` |
| Timestamps.ParseTimestamp | server.py:512-520 | the result is the invalid-format error exactly when the stripped text does not have two or three `:` parts |
| Timestamps.Sexagesimal | server.py:515-518 | a failure of the field arithmetic is always `int()` rejecting a field |
| Timestamps.DigitClock | server.py:514 | a clock text of digit fields strips to itself and splits back into its fields |
| Timestamps.ParseMinutesSeconds | server.py:514-516 | for any text whose stripped form splits on `:` into two fields: both accepted by `int()` gives `int(m)*60 + int(s)`; otherwise the error names the first field `int()` rejects |
| Timestamps.ParseHoursMinutesSeconds | server.py:514-518 | for any text whose stripped form splits on `:` into three fields: all accepted gives `int(h)*3600 + int(m)*60 + int(s)`; otherwise the error names the first field `int()` rejects |
| Timestamps.MinutesExample | server.py:515-516 | `"45:00"` is 2700 seconds |
| Timestamps.HoursExample | server.py:517-518 | `"1:05:00"` is 3900 seconds |
| Timestamps.ParseTimestampNonNegative | server.py:512-520 | a timestamp without `-` never parses to a negative value |
| Timestamps.ParseSegment | server.py:525-545 | blank iff nothing is added; not two `-` parts gives the range-format error; a range has stripped labels that parse to its ends, and start < end |
| Timestamps.SegmentEnds | server.py:529-545 | for a segment with two `-` parts: ends that parse in order are accepted as that range; otherwise the error of the start, or else of the end |
| Timestamps.SegmentOutOfOrder | server.py:538-539 | ends that parse but are out of order are rejected, never swapped |
| Timestamps.ParseRanges | server.py:522-547 | success iff every segment parses; every range returned starts at or after 0 and before its end |
| Timestamps.ParseTimestampRanges | server.py:522-547 | the loop with early `raise` computes `ParseRanges` of the text |
| Timestamps.CollectSnoc | server.py:524-545 | gathering one more segment outcome extends the result as the loop does |
| Timestamps.CollectFailedPrefix | server.py:530-539 | once a segment has failed, later segments change nothing |
| Timestamps.CollectKept | server.py:545 | a successful result holds, in order, exactly the ranges of the segments that carry one |
| Timestamps.KeptIncreasing | server.py:524 | segments are kept in increasing order, each at most once |
| Timestamps.KeptComplete | server.py:526-527 | no non-blank segment's range is dropped |
| Timestamps.CollectOkAll | server.py:530-539 | a successful result means no segment failed |
| Timestamps.CollectError | server.py:530-539 | a failure is the error of a segment before which all succeeded |
| Timestamps.ParseRangesSegments | server.py:522-547 | success iff every segment parses; then the result is the range of every non-blank segment, once each, in segment order |
| Timestamps.SegmentRange | server.py:533-545 | a parsed range starts at or after 0 and before its end; its labels are the stripped texts around the `-` |
| Timestamps.ParseRangesFields | server.py:533-545 | the same holds for every range returned, tied to the segment it came from |
| Timestamps.BlankRanges | server.py:524-527 | text of commas and white space only gives no ranges and no error |
| Timestamps.ParseRangesError | server.py:530-539 | a failure reports the error of the first rejected segment |
| Timestamps.ParseRangesFirstError | server.py:524-539 | the first rejected segment decides the error |
| Timestamps.SingleSegment | server.py:524 | a text without `,` is one segment |
| Timestamps.SegmentOf | server.py:529-545 | a segment `a-b` with clean ends that parse in order is accepted as that range |
| Timestamps.OneRange | server.py:522-547 | a text `a-b` without `,`, with clean ends in order, gives exactly that one range |
| Timestamps.RangesExample | server.py:522-547 | `"1:00-2:30"` gives one range from 60 to 150 labelled `1:00` and `2:30` |
| Filenames.AllowedFile | server.py:508-510 | a name passes iff it has a `.` after which there is no `.` and the lowered rest is an allowed extension |
| Filenames.AllowedFileExtension | server.py:508-510 | `stem.ext` with no `.` in `ext` passes iff `ext.lower()` is in `ALLOWED_EXTENSIONS` |
| Filenames.AllowedFileSuffix | server.py:508-510 | the same, read off the end of any name that ends in `.ext` |
| Filenames.NoDotRefused | server.py:510 | a name without `.` is refused |
| Filenames.AllowedUpperCase | server.py:29 | `Holiday.MP4` passes: the check ignores case |
| Filenames.AllowedLastDot | server.py:510 | `a.b.mkv` passes: only the text after the last `.` counts |
| Filenames.RefusedExtension | server.py:29 | `notes.txt` is refused |
| Filenames.SplitExtRoot | server.py:552 | the root is the whole path, or the path cut at its last `.`, which comes after the last `/` |
| Filenames.SplitExtRootOf | server.py:552 | the root of `stem.ext` is `stem` when `ext` has no `.` or `/` and `stem` is not a bare run of dots |
| Filenames.Delimiter | server.py:555-561 | the delimiter is a space iff the name has one; `_` iff no space but `_`; `-` iff neither but `-`; `.` iff none of those but `.`; none iff none of the four |
| Filenames.FirstWord | server.py:549-564 | an empty name gives `"clip"`; otherwise the word is a prefix of the extension-less name and holds no occurrence of the chosen delimiter |
| Filenames.FirstWordSpec | server.py:549-564 | the word is the text before the first occurrence of the chosen delimiter; with no delimiter it is the name, or `"clip"` for an empty name |
| Filenames.FirstWordPrefix | server.py:549-564 | the word is a prefix of the extension-less name, or `"clip"` when that name is empty |
| Filenames.FirstWordEmpty | server.py:561-564 | the word is empty exactly when the name starts with its delimiter |
| Filenames.FirstWordAtSpace | server.py:555-556 | `My Clip.mp4` gives `My` |
| Filenames.FirstWordLeadingDelimiter | server.py:559-564 | `_.mp4` gives the empty word, not `"clip"` |
| Filenames.FirstWordWholeName | server.py:563-564 | `Trip.mp4` gives `Trip` |
| Filenames.ClipName | server.py:664 | a clip name starts with the first word and `-`, is longer than that by more than five characters and ends in `.mp4` |
| Filenames.RangeTag | server.py:664 | the part after the clip number starts with `-` and ends in `.mp4` |
| Filenames.ClipNameParts | server.py:664 | a clip name is the first word, `-`, the number, then the range tag |
| Filenames.ClipNameInjective | server.py:664 | clips with different numbers get different names |
| Filenames.ClipNameAllowed | server.py:664 | every clip name passes `allowed_file` (it ends in `.mp4`) |
| Filenames.ClipNameExample | server.py:664 | clip 2 of `Show` for `1:00-2:30` is `Show-2-[1_00 - 2_30].mp4` |
| Clips.IntStr | server.py:681-682 | `str(n)` is nonempty, starts with `-` exactly for a negative `n`, and is digits after that |
| Clips.IntStrRoundTrip | server.py:681-682 | `int(str(n)) == n` for every int, so the `-ss` and `-t` arguments carry the start and the duration |
| Clips.Arguments | server.py:678-705 | twelve arguments, the input second and the output last |
| Clips.ArgumentsShape | server.py:678-705 | twelve arguments: input, start, duration, four codec arguments by mode, `-y`, output last |
| Clips.FallbackSameCut | server.py:693-705 | the re-encode repeats the copy's command line except for the four codec arguments |
| Clips.PathJoin | server.py:669-672 | the joined path always ends with the name |
| Clips.PathJoinSpec | server.py:669-672 | `os.path.join`: an absolute name replaces the directory; otherwise the path ends with the name, after a `/` when needed |
| Clips.PathJoinInjective | server.py:669-672 | joining onto one directory keeps different names apart |
| Clips.ClipFileNameIs | server.py:664 | clip `i` is named from the first word, `i` and its range |
| Clips.ClipFileNameShape | server.py:659-664 | every clip name starts with the first word and `-`, and passes the upload gate |
| Clips.ClipPathIs | server.py:667-672 | clip `i` is written to its name joined onto the output directory, or onto the temporary directory in download mode |
| Clips.AbsoluteFirstWordEscapes | server.py:664-672 | when the first word starts with `/`, the clip path is the clip name itself: the output or temporary directory is dropped |
| Clips.ClipPathsDistinct | server.py:662-672 | different clips of one job are written to different paths |
| Clips.ClipAttempts | server.py:691-705 | one or two runs, the copy first; two iff the copy exited non-zero, the second the re-encode |
| Clips.ClipFailure | server.py:691-709 | a clip fails iff the copy raises, or exits non-zero and the re-encode raises or exits non-zero |
| Clips.ReEncodeOnlyAfterFailedCopy | server.py:691-709 | every re-encode directly follows a stream copy to the same output that exited non-zero |
| Clips.CutClip | server.py:675-709 | returns the clip's failure and the runs it made, as `ClipFailure` and `ClipAttempts` define them |
| Clips.ClipIdNumber | server.py:713 | after `clip_`, an id holds the digits of its clip number and a `_` |
| Clips.ClipIdsDistinct | server.py:713 | ids made for different clip numbers differ |
| Clips.FreshClipId | server.py:713 | a fresh id for clip `i` exists, however many keys are taken |
| Clips.AllCutSpec | server.py:662-709 | the loop got past clip `n` iff clips 1 to `n` all were cut |
| Clips.ReportedSnoc | server.py:711-727 | one more clip adds exactly its entry at the end of the response list |
| Clips.ReportedSpec | server.py:711-727 | one response entry per clip, in order, with its file name and, in download mode only, its id |
| Clips.FreshIdsSpec | server.py:713-718 | each registered id is made for its own clip number and was not taken before |
| Clips.FreshIdsDistinct | server.py:713-718 | the ids of one job are pairwise distinct |
| Clips.EntriesSnoc | server.py:714-718 | registering one more id updates the registry by exactly that entry |
| Clips.EntriesSpec | server.py:714-718 | the entries of a job are keyed by exactly its ids, each with its own record |
| Clips.EntriesInTempDir | server.py:714-718 | every entry a job adds has that job's temporary directory as its `tempDir` field |
| Clips.EntriesWellFormed | server.py:713-718 | fresh `clip_` ids with located records keep the registry well formed |
| Clips.JobKeepsWellFormed | server.py:713-718 | a job keeps the registry well formed: `clip_` keys, each path its file name joined onto its `tempDir` |
| Clips.RecordsLocated | server.py:672 | in download mode each clip's path is its name joined onto the temporary directory |
| Clips.ClipStore.constructor | server.py:567 | the registry starts empty and well formed |
| Clips.ClipStore.Register | server.py:713-718 | enters the record under a `clip_<i>_<hex>` id not in the registry before; the new registry is the old one with exactly that entry added |
| Clips.ClipStore.ProcessClip | server.py:662-727 | one loop turn: the clip's failure and runs; on failure the registry is unchanged; otherwise the loop state moves to clip `n + 1` |
| Clips.ClipStore.CutClips | server.py:661-727 | the loop stops at the first failing clip, after all clips before it were cut; the runs made, the response list and the registry entries match the clips cut |
| Clips.ClipStore.SplitVideo | server.py:657-746 | keeps the registry well formed; success iff every clip was cut, with the response list, and the output path when saving to one; otherwise the first clip's failure; the temporary directory is removed when saving to a path or on failure |
| Clips.ClipStore.Download | server.py:753-766 | an unknown id is not found; a known one sends its path under its display name as `video/mp4`; in a well-formed registry that path is the display name joined onto the job's temporary directory |
| Clips.ClipStore.Cleanup | server.py:768-776 | every entry is deleted, leaving the registry empty and well formed, and exactly the directories of the old entries are removed |

## Left out

- The HTTP layer: Flask routes, form and JSON handling, the HTML page, the upload size limit and the checks on the request (`split_video` up to the parsing of the ranges). They are framework glue, not logic of the core.
- `check_ffmpeg` and `get_ffmpeg_command`: they search the filesystem and run processes. The executable name is not part of `Arguments`.
- File-system effects: `secure_filename` and its `temp_video.mp4` fallback, `mkdtemp`, saving the upload, `makedirs`, `rmtree` and `send_file`. The job's paths are fields of `Job`, and the directories to remove are results.
- Clips.ClipStore.Register: the random suffix is modelled as some lower-case hex text not yet used as a key, not as exactly 16 digits from `os.urandom(8)`; a fresh id of fixed length need not exist once enough keys are taken. The source (server.py:713-714) never checks the new id against the keys in use, so a collision, unlikely with 64 random bits, would overwrite an earlier entry; the model builds freshness into `Register` and so does not show that overwrite.
- The first word of a job (`Job.firstWord`) is a field; `SplitVideo` requires it to be `FirstWord` of the upload's original name, as `split_video` computes it before the loop.
- Timestamps.ParseInt: only ASCII digits are accepted; Python's `int()` also reads other Unicode decimal digits. Since Python 3.11, `int()` raises `ValueError` on a text of more than 4300 digits; `ParseInt` accepts any length.
- Clips.IntStr: Python 3.11 and later also refuse `str()` of an int of more than 4300 digits; `IntStr` is total.
- Text.Lower: only characters whose lower case is ASCII are lowered; others cannot make a name equal to an allowed extension either way.
- Windows paths (`ntpath`) are not modelled; joins and `splitext` follow POSIX.
- Logging, exception message texts and the 400/404/500 status codes.
- Concurrent requests sharing `temp_clips`; each job is run as one uninterrupted call.
