/** The clip job of `split_video` and the process-wide `temp_clips`
    registry behind `/download/<clip_id>` and `cleanup_temp_files`.

    ffmpeg is an oracle: a function from the cut it is asked for to how the
    process ended. Within one job every cut asked for is different (the
    output paths differ, see `ClipPathsDistinct`), so a function of the
    request is as general as an oracle answering call by call. */
module Clips {
  import opened Wrappers
  import opened Text
  import opened Timestamps
  import opened Filenames

  /** What `split_video` holds when its loop over the ranges starts;
      `get_first_word` has been applied to the upload's name by then. */
  datatype Job = Job(
    originalFilename: string,  // the name the upload arrived with
    firstWord: string,         // `FirstWord(originalFilename)`
    inputPath: string,         // where the upload was saved
    tempDir: string,           // the job's temporary directory
    saveToPath: bool,          // an output directory was given
    outputPath: string,        // that directory
    ranges: seq<TimeRange>)

  datatype CutMode = StreamCopy | ReEncode

  /** One ffmpeg run: cut `duration` seconds from `start` of `input` into `output`. */
  datatype CutRequest = CutRequest(input: string, start: int, duration: int, mode: CutMode, output: string)

  /** How a run ended: the process exited, or starting it raised. */
  datatype CutOutcome = Exited(returnCode: int, stderr: string) | Raised(message: string)

  /** Why a job stopped. */
  datatype JobError = FfmpegFailed(stderr: string) | CutterRaised(message: string)

  /** A `temp_clips` entry. */
  datatype ClipRecord = ClipRecord(path: string, filename: string, tempDir: string)

  /** An entry of the `clips` list of the response; `id` only for download. */
  datatype ClipInfo = ClipInfo(id: Option<string>, filename: string)

  /** The successful response: the clips and, when saving to a path, that path. */
  datatype JobReport = JobReport(clips: seq<ClipInfo>, savedToPath: Option<string>)

  /** What `/download/<clip_id>` answers. */
  datatype Download = ClipNotFound | SendFile(path: string, downloadName: string, mimetype: string)

  /** `str()` of an int: a `-` exactly for a negative number, then digits. */
  function IntStr(n: int): (r: string)
    ensures r != [] && (r[0] == '-' <==> n < 0)
    ensures forall k :: (if n < 0 then 1 else 0) <= k < |r| ==> IsDigit(r[k])
  {
    if n < 0 then "-" + NatStr(-n) else NatStr(n)
  }

  /** The arguments after the ffmpeg executable, as `split_video` builds
      them: twelve, the input second and the output last. */
  function Arguments(r: CutRequest): (argv: seq<string>)
    ensures |argv| == 12 && argv[1] == r.input && argv[11] == r.output
  {
    ["-i", r.input, "-ss", IntStr(r.start), "-t", IntStr(r.duration)]
    + (match r.mode
       case StreamCopy => ["-c", "copy", "-avoid_negative_ts", "make_zero"]
       case ReEncode => ["-c:v", "libx264", "-c:a", "aac"])
    + ["-y", r.output]
  }

  /** `int()` reads back what `str()` writes, for every int. */
  lemma IntStrRoundTrip(n: int)
    ensures ParseInt(IntStr(n)) == Some(n)
  {
    if n >= 0 {
      ParseIntNatStr(n);
    } else {
      ParseIntMinusNatStr(-n);
    }
  }

  /** `int()` reads `-` and the decimal text of `m` back as `-m`. */
  lemma ParseIntMinusNatStr(m: nat)
    ensures ParseInt("-" + NatStr(m)) == Some(-(m as int))
  {
    var d := NatStr(m);
    MinusUntrimmed(d);
    DigitsAreDigitGroup(d);
    ParseIntMinus(d);
    DecimalValueNatStr(m);
  }

  /** `int()` of `-` before a digit group with nothing to trim. */
  lemma ParseIntMinus(d: string)
    requires Trim("-" + d, IntSpace) == "-" + d && IsDigitGroup(d)
    ensures ParseInt("-" + d) == Some(-(DecimalValue(d) as int))
  {
    assert ("-" + d)[1..] == d;
  }

  /** A `-` before digits has no white space to trim. */
  lemma MinusUntrimmed(d: string)
    requires d != [] && IsDigit(d[|d| - 1])
    ensures Trim("-" + d, IntSpace) == "-" + d
  {
    var s := "-" + d;
    assert s[0] == '-' && s[|s| - 1] == d[|d| - 1];
    DigitNotSpace(d[|d| - 1]);
    TrimUnchanged(s, IntSpace);
  }

  /** Every run passes ffmpeg twelve arguments: the input, the start and the
      duration as decimal text (`IntStrRoundTrip`), four that pick the
      codecs, overwriting, and the output last. */
  lemma ArgumentsShape(r: CutRequest)
    ensures var argv := Arguments(r);
      && |argv| == 12
      && argv[0] == "-i" && argv[1] == r.input
      && argv[2] == "-ss" && argv[3] == IntStr(r.start)
      && argv[4] == "-t" && argv[5] == IntStr(r.duration)
      && argv[6..10] == (if r.mode == StreamCopy then ["-c", "copy", "-avoid_negative_ts", "make_zero"]
                         else ["-c:v", "libx264", "-c:a", "aac"])
      && argv[10] == "-y" && argv[11] == r.output
  {
    var head := ["-i", r.input, "-ss", IntStr(r.start), "-t", IntStr(r.duration)];
    var codecs := if r.mode == StreamCopy then ["-c", "copy", "-avoid_negative_ts", "make_zero"]
                  else ["-c:v", "libx264", "-c:a", "aac"];
    var tail := ["-y", r.output];
    assert Arguments(r) == head + codecs + tail;
    ConcatParts(head, codecs, tail);
  }

  lemma ConcatParts<T>(a: seq<T>, b: seq<T>, c: seq<T>)
    ensures (a + b + c)[..|a|] == a && (a + b + c)[|a|..|a| + |b|] == b
    ensures (a + b + c)[|a| + |b|..] == c
  {
  }

  /** The re-encode of a clip repeats the stream copy's command line except
      for the four codec arguments. */
  lemma FallbackSameCut(job: Job, i: nat)
    requires 1 <= i <= |job.ranges|
    ensures var copy, encode := Arguments(Copy(job, i)), Arguments(Encode(job, i));
      && |copy| == |encode|
      && (forall k :: 0 <= k < |copy| && !(6 <= k < 10) ==> copy[k] == encode[k])
      && copy[6..10] != encode[6..10]
  {
    var copy, encode := Arguments(Copy(job, i)), Arguments(Encode(job, i));
    assert copy[7] == "copy" && encode[7] == "libx264";
  }

  /** `posixpath.join(a, b)`: the result always ends with `b`. */
  function PathJoin(a: string, b: string): (p: string)
    ensures |p| >= |b| && p[|p| - |b|..] == b
  {
    if b != [] && b[0] == '/' then b
    else if a == [] || a[|a| - 1] == '/' then a + b
    else
      assert a + "/" + b == (a + "/") + b;
      a + "/" + b
  }

  /** An absolute second part replaces the first; otherwise the join ends
      with the second part, after a `/` unless the first is empty or ends
      in one. */
  lemma PathJoinSpec(a: string, b: string)
    ensures var p := PathJoin(a, b);
      && (b != [] && b[0] == '/' ==> p == b)
      && (b == [] || b[0] != '/' ==>
            && |p| >= |b| && p[|p| - |b|..] == b
            && (a != [] && a[|a| - 1] != '/' ==> p == a + "/" + b)
            && (a == [] || a[|a| - 1] == '/' ==> p == a + b))
  {
    var p := PathJoin(a, b);
    if b == [] || b[0] != '/' {
      assert p[|p| - |b|..] == b;
    }
  }

  /** Joining onto one directory keeps different names apart. */
  lemma PathJoinInjective(a: string, b: string, c: string)
    requires b != [] && c != [] && (b[0] == '/' <==> c[0] == '/')
    requires PathJoin(a, b) == PathJoin(a, c)
    ensures b == c
  {
    if b[0] != '/' {
      var p := if a == [] || a[|a| - 1] == '/' then a else a + "/";
      assert PathJoin(a, b) == p + b;
      assert PathJoin(a, c) == p + c;
      assert b == (p + b)[|p|..];
      assert c == (p + c)[|p|..];
    }
  }

  /** Where the clips go. */
  function OutputDir(job: Job): string
  {
    if job.saveToPath then job.outputPath else job.tempDir
  }

  /** The file names of the clips cut from `ranges`, numbered from 1. The
      source computes one name per loop turn (server.py:664); this list, and
      `JoinAll` below, stand for nothing in it. `ClipFileName` and `ClipPath`
      index into them instead of calling `ClipName` and `PathJoin` directly
      only to keep those bodies out of the loop proofs, which otherwise run
      out of resource; `ClipFileNameIs` and `ClipPathIs` give the direct
      form. */
  function ClipNames(first: string, ranges: seq<TimeRange>): (names: seq<string>)
    ensures |names| == |ranges|
  {
    if ranges == [] then []
    else ClipNames(first, ranges[..|ranges| - 1]) + [ClipName(first, |ranges|, ranges[|ranges| - 1])]
  }

  lemma {:induction false} ClipNamesAt(first: string, ranges: seq<TimeRange>, k: nat)
    requires k < |ranges|
    ensures ClipNames(first, ranges)[k] == ClipName(first, k + 1, ranges[k])
  {
    if k < |ranges| - 1 {
      ClipNamesAt(first, ranges[..|ranges| - 1], k);
    }
  }

  /** The file name of clip `i` (numbered from 1). */
  function ClipFileName(job: Job, i: nat): string
    requires 1 <= i <= |job.ranges|
  {
    ClipNames(job.firstWord, job.ranges)[i - 1]
  }

  /** Clip `i` is named after the first word of the upload, `i` and its range. */
  lemma ClipFileNameIs(job: Job, i: nat)
    requires 1 <= i <= |job.ranges|
    ensures ClipFileName(job, i) == ClipName(job.firstWord, i, job.ranges[i - 1])
  {
    ClipNamesAt(job.firstWord, job.ranges, i - 1);
  }

  /** `names` joined onto `dir`, one by one (see `ClipNames`). */
  function JoinAll(dir: string, names: seq<string>): (paths: seq<string>)
    ensures |paths| == |names|
  {
    if names == [] then []
    else JoinAll(dir, names[..|names| - 1]) + [PathJoin(dir, names[|names| - 1])]
  }

  lemma {:induction false} JoinAllAt(dir: string, names: seq<string>, k: nat)
    requires k < |names|
    ensures JoinAll(dir, names)[k] == PathJoin(dir, names[k])
  {
    if k < |names| - 1 {
      JoinAllAt(dir, names[..|names| - 1], k);
    }
  }

  /** Every clip name is the job's first word, a `-`, and more, and it
      passes the upload gate. */
  lemma ClipFileNameShape(job: Job, i: nat)
    requires 1 <= i <= |job.ranges|
    ensures var name := ClipFileName(job, i);
      |name| > |job.firstWord| && name[..|job.firstWord| + 1] == job.firstWord + "-" && AllowedFile(name)
  {
    ClipFileNameIs(job, i);
    ClipNameParts(job.firstWord, i, job.ranges[i - 1]);
    ClipNameAllowed(job.firstWord, i, job.ranges[i - 1]);
  }

  /** The path clip `i` is written to. */
  function ClipPath(job: Job, i: nat): string
    requires 1 <= i <= |job.ranges|
  {
    JoinAll(OutputDir(job), ClipNames(job.firstWord, job.ranges))[i - 1]
  }

  /** Clip `i` is written under its file name in the output directory. */
  lemma ClipPathIs(job: Job, i: nat)
    requires 1 <= i <= |job.ranges|
    ensures ClipPath(job, i) == PathJoin(OutputDir(job), ClipFileName(job, i))
  {
    JoinAllAt(OutputDir(job), ClipNames(job.firstWord, job.ranges), i - 1);
  }

  /** A first word that starts with `/` makes the clip name absolute, so
      the join drops the output directory and the clip is written at the
      name itself, outside that directory. */
  lemma AbsoluteFirstWordEscapes(job: Job, i: nat)
    requires 1 <= i <= |job.ranges|
    requires job.firstWord != [] && job.firstWord[0] == '/'
    ensures ClipPath(job, i) == ClipFileName(job, i)
  {
    var name := ClipFileName(job, i);
    ClipPathIs(job, i);
    ClipFileNameIs(job, i);
    ClipNameParts(job.firstWord, i, job.ranges[i - 1]);
    assert name[0] == (job.firstWord + "-")[0];
    PathJoinSpec(OutputDir(job), name);
  }

  /** Different clips of a job are written to different paths. */
  lemma ClipPathsDistinct(job: Job, i: nat, j: nat)
    requires 1 <= i <= |job.ranges| && 1 <= j <= |job.ranges| && i != j
    ensures ClipPath(job, i) != ClipPath(job, j)
  {
    var first := job.firstWord;
    var a, b := ClipFileName(job, i), ClipFileName(job, j);
    ClipFileNameIs(job, i);
    ClipFileNameIs(job, j);
    ClipNameParts(first, i, job.ranges[i - 1]);
    ClipNameParts(first, j, job.ranges[j - 1]);
    assert a[0] == a[..|first| + 1][0] && b[0] == b[..|first| + 1][0];
    ClipPathIs(job, i);
    ClipPathIs(job, j);
    if ClipPath(job, i) == ClipPath(job, j) {
      PathJoinInjective(OutputDir(job), a, b);
      ClipNameInjective(first, i, j, job.ranges[i - 1], job.ranges[j - 1]);
    }
  }

  function Copy(job: Job, i: nat): CutRequest
    requires 1 <= i <= |job.ranges|
  {
    var range := job.ranges[i - 1];
    CutRequest(job.inputPath, range.start, range.end - range.start, StreamCopy, ClipPath(job, i))
  }

  function Encode(job: Job, i: nat): CutRequest
    requires 1 <= i <= |job.ranges|
  {
    var range := job.ranges[i - 1];
    CutRequest(job.inputPath, range.start, range.end - range.start, ReEncode, ClipPath(job, i))
  }

  /** The runs made for clip `i`: the stream copy, then the re-encode if the
      copy exited with a non-zero code. */
  function ClipAttempts(job: Job, cutter: CutRequest -> CutOutcome, i: nat): (runs: seq<CutRequest>)
    requires 1 <= i <= |job.ranges|
    ensures 1 <= |runs| <= 2 && runs[0] == Copy(job, i)
    ensures |runs| == 2 <==> cutter(Copy(job, i)).Exited? && cutter(Copy(job, i)).returnCode != 0
    ensures |runs| == 2 ==> runs[1] == Encode(job, i)
  {
    match cutter(Copy(job, i))
    case Exited(code, _) => if code != 0 then [Copy(job, i), Encode(job, i)] else [Copy(job, i)]
    case Raised(_) => [Copy(job, i)]
  }

  /** Why clip `i` failed, or `None` when it was cut. */
  function ClipFailure(job: Job, cutter: CutRequest -> CutOutcome, i: nat): (failure: Option<JobError>)
    requires 1 <= i <= |job.ranges|
    ensures var copy, encode := cutter(Copy(job, i)), cutter(Encode(job, i));
      failure.Some? <==> copy.Raised? || (copy.returnCode != 0 && (encode.Raised? || encode.returnCode != 0))
  {
    match cutter(Copy(job, i))
    case Raised(message) => Some(CutterRaised(message))
    case Exited(code, _) =>
      if code == 0 then None
      else
        match cutter(Encode(job, i))
        case Raised(message) => Some(CutterRaised(message))
        case Exited(code2, stderr) => if code2 == 0 then None else Some(FfmpegFailed(stderr))
  }

  /** The runs made for clips 1 to `n`, in order. */
  function AttemptsThrough(job: Job, cutter: CutRequest -> CutOutcome, n: nat): seq<CutRequest>
    requires n <= |job.ranges|
  {
    if n == 0 then [] else AttemptsThrough(job, cutter, n - 1) + ClipAttempts(job, cutter, n)
  }

  /** A re-encode is only ever run right after the stream copy of the same
      clip, and only when that copy exited with a non-zero code. */
  lemma {:induction false} ReEncodeOnlyAfterFailedCopy(job: Job, cutter: CutRequest -> CutOutcome, n: nat, p: nat)
    requires n <= |job.ranges|
    requires p < |AttemptsThrough(job, cutter, n)| && AttemptsThrough(job, cutter, n)[p].mode == ReEncode
    ensures var attempts := AttemptsThrough(job, cutter, n);
      && p > 0 && attempts[p - 1].mode == StreamCopy
      && attempts[p - 1].output == attempts[p].output
      && cutter(attempts[p - 1]).Exited? && cutter(attempts[p - 1]).returnCode != 0
  {
    var before := AttemptsThrough(job, cutter, n - 1);
    var last := ClipAttempts(job, cutter, n);
    assert AttemptsThrough(job, cutter, n) == before + last;
    if p < |before| {
      ReEncodeOnlyAfterFailedCopy(job, cutter, n - 1, p);
    } else {
      assert last[p - |before|].mode == ReEncode;
      assert p - |before| == 1;
    }
  }

  /** A `temp_clips` key made for clip `i`: `clip_<i>_` and lower-case hex. */
  predicate IsClipIdFor(id: string, i: nat)
  {
    var prefix := "clip_" + NatStr(i) + "_";
    |id| > |prefix| && id[..|prefix|] == prefix && IsHex(id[|prefix|..])
  }

  predicate IsHex(s: string)
  {
    forall k :: 0 <= k < |s| ==> '0' <= s[k] <= '9' || 'a' <= s[k] <= 'f'
  }

  /** Ids made for different clips differ. */
  lemma ClipIdsDistinct(id: string, i: nat, j: nat)
    requires IsClipIdFor(id, i) && IsClipIdFor(id, j)
    ensures i == j
  {
    var a, b := NatStr(i), NatStr(j);
    ClipIdNumber(id, i);
    ClipIdNumber(id, j);
    DigitsPrefix(a, id[5 + |a|..], b, id[5 + |b|..]);
    NatStrInjective(i, j);
  }

  /** After `clip_`, an id for clip `i` holds the digits of `i` and a `_`. */
  lemma ClipIdNumber(id: string, i: nat)
    requires IsClipIdFor(id, i)
    ensures var d := NatStr(i);
      && |id| > 5 + |d| && id[5 + |d|] == '_'
      && id[5..] == d + id[5 + |d|..]
  {
    var d := NatStr(i);
    var p := "clip_" + d + "_";
    assert id[..|p|] == p;
    assert id[5 + |d|] == p[5 + |d|];
    assert p[5..5 + |d|] == d;
    assert id[5..5 + |d|] == id[..|p|][5..5 + |d|];
    assert id[5..] == id[5..5 + |d|] + id[5 + |d|..];
  }

  /** The length of the longest key. */
  ghost function MaxLength(keys: set<string>): (m: nat)
    ensures forall key :: key in keys ==> |key| <= m
  {
    if keys == {} then 0
    else
      var key :| key in keys;
      var rest := MaxLength(keys - {key});
      if |key| > rest then |key| else rest
  }

  /** However many clips are registered, a fresh id for clip `i` exists. */
  lemma FreshClipId(keys: set<string>, i: nat)
    ensures exists id :: id !in keys && IsClipIdFor(id, i)
  {
    var prefix := "clip_" + NatStr(i) + "_";
    var id := prefix + seq(MaxLength(keys) + 1, _ => '0');
    assert id[..|prefix|] == prefix;
    assert IsClipIdFor(id, i);
  }

  /** The `temp_clips` entry of clip `i` of a download job. */
  function Record(job: Job, i: nat): ClipRecord
    requires 1 <= i <= |job.ranges|
  {
    ClipRecord(ClipPath(job, i), ClipFileName(job, i), job.tempDir)
  }

  /** The response entry of clip `i`, given its id. */
  function Info(job: Job, i: nat, id: string): ClipInfo
    requires 1 <= i <= |job.ranges|
  {
    ClipInfo(if job.saveToPath then None else Some(id), ClipFileName(job, i))
  }

  /** Clips 1 to `n` were all cut. */
  ghost predicate AllCut(job: Job, cutter: CutRequest -> CutOutcome, n: nat)
    requires n <= |job.ranges|
  {
    n == 0 || (AllCut(job, cutter, n - 1) && ClipFailure(job, cutter, n).None?)
  }

  lemma {:induction false} AllCutSpec(job: Job, cutter: CutRequest -> CutOutcome, n: nat)
    requires n <= |job.ranges|
    ensures AllCut(job, cutter, n) <==> forall i :: 1 <= i <= n ==> ClipFailure(job, cutter, i).None?
  {
    if n > 0 {
      AllCutSpec(job, cutter, n - 1);
      var clean := ClipFailure(job, cutter, n).None?;
      assert AllCut(job, cutter, n) == (AllCut(job, cutter, n - 1) && clean);
      if AllCut(job, cutter, n) {
        forall i | 1 <= i <= n
          ensures ClipFailure(job, cutter, i).None?
        {
          if i < n {
            assert 1 <= i <= n - 1;
          }
        }
      }
    }
  }

  /** The `clips` list of the response for clips 1 to `n`: in download mode
      `ids` holds one id per clip, when saving to a path it is empty. */
  function Reported(job: Job, ids: seq<string>, n: nat): seq<ClipInfo>
    requires n <= |job.ranges| && |ids| == if job.saveToPath then 0 else n
  {
    if n == 0 then []
    else if job.saveToPath then Reported(job, ids, n - 1) + [Info(job, n, "")]
    else Reported(job, ids[..n - 1], n - 1) + [Info(job, n, ids[n - 1])]
  }

  /** The report of one more clip: its entry is added at the end. */
  lemma ReportedSnoc(job: Job, ids: seq<string>, n: nat, id: string)
    requires n < |job.ranges| && |ids| == if job.saveToPath then 0 else n
    ensures var more := if job.saveToPath then ids else ids + [id];
      Reported(job, more, n + 1) == Reported(job, ids, n) + [Info(job, n + 1, id)]
  {
    if !job.saveToPath {
      assert (ids + [id])[..n] == ids;
    }
  }

  /** One entry per clip, in order: its file name and, in download mode,
      its id. */
  lemma {:induction false} ReportedSpec(job: Job, ids: seq<string>, n: nat)
    requires n <= |job.ranges| && |ids| == if job.saveToPath then 0 else n
    ensures var r := Reported(job, ids, n);
      && |r| == n
      && forall k :: 0 <= k < n ==>
           && r[k].filename == ClipFileName(job, k + 1)
           && r[k].id == if job.saveToPath then None else Some(ids[k])
  {
    if n > 0 {
      var rest := if job.saveToPath then ids else ids[..n - 1];
      ReportedSpec(job, rest, n - 1);
    }
  }

  /** `ids` are the ids of clips 1, 2, ... in order, none of them in `taken`. */
  ghost predicate FreshIds(ids: seq<string>, taken: set<string>)
  {
    ids == [] ||
      (FreshIds(ids[..|ids| - 1], taken)
       && ids[|ids| - 1] !in taken && IsClipIdFor(ids[|ids| - 1], |ids|))
  }

  /** Each id is made for its own clip and is new. */
  lemma {:induction false} FreshIdsSpec(ids: seq<string>, taken: set<string>)
    requires FreshIds(ids, taken)
    ensures forall k :: 0 <= k < |ids| ==> ids[k] !in taken && IsClipIdFor(ids[k], k + 1)
  {
    if ids != [] {
      var n := |ids| - 1;
      FreshIdsSpec(ids[..n], taken);
      forall k | 0 <= k < n
        ensures ids[k] !in taken && IsClipIdFor(ids[k], k + 1)
      {
        assert ids[k] == ids[..n][k];
      }
    }
  }

  /** No two ids of a job are equal. */
  lemma FreshIdsDistinct(ids: seq<string>, taken: set<string>)
    requires FreshIds(ids, taken)
    ensures forall k, l :: 0 <= k < l < |ids| ==> ids[k] != ids[l]
  {
    FreshIdsSpec(ids, taken);
    forall k, l | 0 <= k < l < |ids| && ids[k] == ids[l]
      ensures false
    {
      ClipIdsDistinct(ids[k], k + 1, l + 1);
    }
  }

  /** The `temp_clips` records of the clips of a download job, in order. */
  function Records(job: Job): (recs: seq<ClipRecord>)
    ensures |recs| == |job.ranges|
  {
    seq(|job.ranges|, k requires 0 <= k < |job.ranges| => Record(job, k + 1))
  }

  /** The entries that giving the first `|ids|` records those ids adds to
      `temp_clips`. */
  function Entries(ids: seq<string>, recs: seq<ClipRecord>): map<string, ClipRecord>
    requires |ids| <= |recs|
  {
    if ids == [] then map[]
    else Entries(ids[..|ids| - 1], recs)[ids[|ids| - 1] := recs[|ids| - 1]]
  }

  /** Entering one more id extends the registry by exactly that entry. */
  lemma EntriesSnoc(taken: map<string, ClipRecord>, ids: seq<string>, id: string, recs: seq<ClipRecord>)
    requires |ids| < |recs|
    ensures taken + Entries(ids + [id], recs) == (taken + Entries(ids, recs))[id := recs[|ids|]]
  {
    assert (ids + [id])[..|ids|] == ids;
  }

  /** With distinct ids, the entries are keyed by exactly those ids, each
      holding its own record. */
  lemma {:induction false} EntriesSpec(ids: seq<string>, recs: seq<ClipRecord>)
    requires |ids| <= |recs|
    requires forall k, l :: 0 <= k < l < |ids| ==> ids[k] != ids[l]
    ensures forall id :: id in Entries(ids, recs) <==> id in ids
    ensures forall k :: 0 <= k < |ids| ==> Entries(ids, recs)[ids[k]] == recs[k]
  {
    if ids != [] {
      var n := |ids| - 1;
      EntriesSpec(ids[..n], recs);
      assert ids == ids[..n] + [ids[n]];
    }
  }

  /** Every entry a job adds records the job's temporary directory as its
      `tempDir`; so after a failed download job, which removes that
      directory, the entries it made before the failure stay behind naming
      it. */
  lemma {:induction false} EntriesInTempDir(job: Job, ids: seq<string>)
    requires |ids| <= |job.ranges|
    ensures forall id :: id in Entries(ids, Records(job)) ==> Entries(ids, Records(job))[id].tempDir == job.tempDir
  {
    if ids != [] {
      EntriesInTempDir(job, ids[..|ids| - 1]);
    }
  }

  /** The ffmpeg part of one turn of the loop: a stream copy of the range
      into `output`; when that exits non-zero, a re-encode into the same
      file. Returns why the clip failed, if it did, and the runs made. */
  method CutClip(job: Job, cutter: CutRequest -> CutOutcome, i: nat, output: string)
    returns (failure: Option<JobError>, ghost runs: seq<CutRequest>)
    requires 1 <= i <= |job.ranges| && output == ClipPath(job, i)
    ensures failure == ClipFailure(job, cutter, i)
    ensures runs == ClipAttempts(job, cutter, i)
  {
    var range := job.ranges[i - 1];
    var duration := range.end - range.start;
    var request := CutRequest(job.inputPath, range.start, duration, StreamCopy, output);
    runs := [request];
    var outcome := cutter(request);
    if outcome.Raised? {
      return Some(CutterRaised(outcome.message)), runs;
    }
    if outcome.returnCode == 0 {
      return None, runs;
    }
    request := CutRequest(job.inputPath, range.start, duration, ReEncode, output);
    runs := runs + [request];
    outcome := cutter(request);
    if outcome.Raised? {
      return Some(CutterRaised(outcome.message)), runs;
    }
    if outcome.returnCode != 0 {
      return Some(FfmpegFailed(outcome.stderr)), runs;
    }
    return None, runs;
  }

  /** A record whose path is its file name joined onto its directory. */
  predicate Located(r: ClipRecord)
  {
    r.path == PathJoin(r.tempDir, r.filename)
  }

  /** Every entry is keyed by a `clip_` id and its path is its file name
      joined onto its `tempDir` (which need not keep the path inside that
      directory: see `AbsoluteFirstWordEscapes`). */
  ghost predicate WellFormed(clips: map<string, ClipRecord>)
  {
    forall id :: id in clips ==> |id| > 5 && id[..5] == "clip_" && Located(clips[id])
  }

  /** A clip id starts with `clip_`. */
  lemma ClipIdPrefix(id: string, i: nat)
    requires IsClipIdFor(id, i)
    ensures |id| > 5 && id[..5] == "clip_"
  {
    assert id[..5] == ("clip_" + NatStr(i) + "_")[..5];
  }

  /** Adding fresh ids with located records keeps the registry well formed. */
  lemma {:induction false} EntriesWellFormed(taken: map<string, ClipRecord>, ids: seq<string>, recs: seq<ClipRecord>)
    requires WellFormed(taken) && |ids| <= |recs| && FreshIds(ids, taken.Keys)
    requires forall k :: 0 <= k < |ids| ==> Located(recs[k])
    ensures WellFormed(taken + Entries(ids, recs))
  {
    if ids != [] {
      var n := |ids| - 1;
      EntriesWellFormed(taken, ids[..n], recs);
      ClipIdPrefix(ids[n], n + 1);
      MergeUpdate(taken, Entries(ids[..n], recs), ids[n], recs[n]);
      WellFormedUpdate(taken + Entries(ids[..n], recs), ids[n], recs[n]);
    }
  }

  /** Merging an updated map is updating the merge. */
  lemma MergeUpdate(m: map<string, ClipRecord>, e: map<string, ClipRecord>, k: string, v: ClipRecord)
    ensures m + e[k := v] == (m + e)[k := v]
  {
  }

  lemma WellFormedUpdate(m: map<string, ClipRecord>, id: string, r: ClipRecord)
    requires WellFormed(m) && |id| > 5 && id[..5] == "clip_" && Located(r)
    ensures WellFormed(m[id := r])
  {
  }

  /** A job keeps the registry well formed: what it adds is keyed by fresh
      `clip_` ids, each path the clip's file name joined onto the job's
      temporary directory. */
  lemma JobKeepsWellFormed(job: Job, taken: map<string, ClipRecord>, ids: seq<string>)
    requires WellFormed(taken) && |ids| <= |job.ranges| && FreshIds(ids, taken.Keys)
    requires ids != [] ==> !job.saveToPath
    ensures WellFormed(taken + Entries(ids, Records(job)))
  {
    if ids != [] {
      RecordsLocated(job);
    }
    EntriesWellFormed(taken, ids, Records(job));
  }

  /** In download mode every clip is written at its file name joined onto
      the job's temporary directory. */
  lemma RecordsLocated(job: Job)
    requires !job.saveToPath
    ensures forall k :: 0 <= k < |job.ranges| ==> Located(Records(job)[k])
  {
    forall k | 0 <= k < |job.ranges|
      ensures Located(Records(job)[k])
    {
      RecordOfLocated(job, k + 1);
    }
  }

  /** One record at a time, so that the join stays out of the quantified
      proof above. */
  lemma RecordOfLocated(job: Job, i: nat)
    requires !job.saveToPath && 1 <= i <= |job.ranges|
    ensures Located(Record(job, i))
  {
    ClipPathIs(job, i);
  }

  /** Where the loop of `split_video` stands after its first `n` clips were
      all cut: the ffmpeg runs made, the ids entered, the entries of the
      response and the registry, which started out as `taken`. */
  ghost predicate Progress(job: Job, cutter: CutRequest -> CutOutcome, taken: map<string, ClipRecord>, n: nat,
                           ids: seq<string>, attempts: seq<CutRequest>, infos: seq<ClipInfo>,
                           clips: map<string, ClipRecord>)
  {
    && n <= |job.ranges|
    && AllCut(job, cutter, n)
    && attempts == AttemptsThrough(job, cutter, n)
    && |ids| == (if job.saveToPath then 0 else n)
    && infos == Reported(job, ids, n)
    && FreshIds(ids, taken.Keys)
    && clips == taken + Entries(ids, Records(job))
  }

  /** The process-wide `temp_clips` dictionary. */
  class ClipStore {
    var clips: map<string, ClipRecord>

    ghost predicate Valid()
      reads this
    {
      WellFormed(clips)
    }

    constructor()
      ensures clips == map[] && Valid()
    {
      clips := map[];
    }

    /** Enters `record` under a fresh id for clip `i`: the id is
        `clip_<i>_` followed by random hex digits, and is not yet in use.
        The registry held `taken` before the job, which has entered `ids`
        with the first records of `recs` so far; `record` is the next. */
    method Register(i: nat, record: ClipRecord, ghost taken: map<string, ClipRecord>,
                    ghost ids: seq<string>, ghost recs: seq<ClipRecord>)
      returns (id: string)
      requires i == |ids| + 1 && i <= |recs| && record == recs[i - 1]
      requires clips == taken + Entries(ids, recs) && FreshIds(ids, taken.Keys)
      modifies this
      ensures id !in old(clips) && IsClipIdFor(id, i)
      ensures clips == old(clips)[id := record]
      ensures clips == taken + Entries(ids + [id], recs)
      ensures FreshIds(ids + [id], taken.Keys)
    {
      FreshClipId(clips.Keys, i);
      id :| id !in clips && IsClipIdFor(id, i);
      EntriesSnoc(taken, ids, id, recs);
      assert (ids + [id])[..|ids|] == ids;
      clips := clips[id := record];
    }

    /** One turn of the loop of `split_video`, for clip `n + 1`: the clip
        is cut and, if that worked, in download mode entered under a fresh
        id, and `info`, its entry of the response, is added to `infos`. */
    method ProcessClip(job: Job, cutter: CutRequest -> CutOutcome, n: nat,
                       ghost taken: map<string, ClipRecord>, ghost ids: seq<string>,
                       ghost attempts: seq<CutRequest>, ghost infos: seq<ClipInfo>)
      returns (failure: Option<JobError>, info: ClipInfo, ghost more: seq<string>, ghost runs: seq<CutRequest>)
      requires n < |job.ranges| && Progress(job, cutter, taken, n, ids, attempts, infos, clips)
      modifies this
      ensures failure == ClipFailure(job, cutter, n + 1)
      ensures attempts + runs == AttemptsThrough(job, cutter, n + 1)
      ensures failure.Some? ==> clips == old(clips)
      ensures failure.None? ==> Progress(job, cutter, taken, n + 1, more, attempts + runs, infos + [info], clips)
    {
      var i := n + 1;
      var outputFilename := ClipName(job.firstWord, i, job.ranges[i - 1]);
      ClipFileNameIs(job, i);
      var clipOutputPath := PathJoin(if job.saveToPath then job.outputPath else job.tempDir, outputFilename);
      ClipPathIs(job, i);
      failure, runs := CutClip(job, cutter, i, clipOutputPath);
      var id := "";
      more := ids;
      info := ClipInfo(None, outputFilename);
      if failure.Some? {
        return;
      }
      if !job.saveToPath {
        id := Register(i, ClipRecord(clipOutputPath, outputFilename, job.tempDir), taken, ids, Records(job));
        info := ClipInfo(Some(id), outputFilename);
        more := ids + [id];
      }
      ReportedSnoc(job, ids, n, id);
    }

    /** The loop of `split_video` over the ranges, numbered from 1: each is
        cut and registered (`ProcessClip`), the loop stops at the first clip
        that fails, and in download mode every clip cut gets a fresh id in
        the registry. `done` counts the clips cut, `ids` the ids entered and
        `attempts` the ffmpeg runs made. Entries made before a failure stay
        in the registry. */
    method CutClips(job: Job, cutter: CutRequest -> CutOutcome)
      returns (failure: Option<JobError>, infos: seq<ClipInfo>,
               ghost done: nat, ghost ids: seq<string>, ghost attempts: seq<CutRequest>)
      modifies this
      ensures done <= |job.ranges| && AllCut(job, cutter, done)
      ensures failure.None? <==> done == |job.ranges|
      ensures failure.Some? ==> ClipFailure(job, cutter, done + 1) == failure
      ensures attempts == AttemptsThrough(job, cutter, if failure.None? then done else done + 1)
      ensures |ids| == if job.saveToPath then 0 else done
      ensures infos == Reported(job, ids, done)
      ensures FreshIds(ids, old(clips).Keys)
      ensures clips == old(clips) + Entries(ids, Records(job))
    {
      infos, ids, attempts := [], [], [];
      ghost var taken := clips;
      var n := 0;
      while n < |job.ranges|
        invariant Progress(job, cutter, taken, n, ids, attempts, infos, clips)
      {
        var info; ghost var more, runs;
        failure, info, more, runs := ProcessClip(job, cutter, n, taken, ids, attempts, infos);
        if failure.Some? {
          return failure, infos, n, ids, attempts + runs;
        }
        infos, ids, attempts := infos + [info], more, attempts + runs;
        n := n + 1;
      }
      return None, infos, n, ids, attempts;
    }

    /** `split_video`: the clips are cut by `CutClips`; the job succeeds
        with every clip's entry when all were cut, and fails with the first
        failure otherwise. `removeTempDir` says whether the temporary
        directory is removed afterwards: when saving to a path, and on any
        failure. */
    method SplitVideo(job: Job, cutter: CutRequest -> CutOutcome)
      returns (res: Result<JobReport, JobError>, removeTempDir: bool,
               ghost done: nat, ghost ids: seq<string>, ghost attempts: seq<CutRequest>)
      requires Valid() && job.firstWord == FirstWord(job.originalFilename)
      modifies this
      ensures Valid()
      ensures done <= |job.ranges|
      ensures AllCut(job, cutter, done)
      ensures res.Ok? <==> done == |job.ranges|
      ensures res.Err? ==> ClipFailure(job, cutter, done + 1) == Some(res.error)
      ensures attempts == AttemptsThrough(job, cutter, if res.Ok? then done else done + 1)
      ensures |ids| == if job.saveToPath then 0 else done
      ensures res.Ok? ==> res.value == JobReport(
        Reported(job, ids, done), if job.saveToPath then Some(job.outputPath) else None)
      ensures removeTempDir <==> job.saveToPath || res.Err?
      ensures FreshIds(ids, old(clips).Keys)
      ensures clips == old(clips) + Entries(ids, Records(job))
    {
      ghost var taken := clips;
      var failure; var infos;
      failure, infos, done, ids, attempts := CutClips(job, cutter);
      JobKeepsWellFormed(job, taken, ids);
      if failure.Some? {
        return Err(failure.value), true, done, ids, attempts;
      }
      res := Ok(JobReport(infos, if job.saveToPath then Some(job.outputPath) else None));
      return res, job.saveToPath, done, ids, attempts;
    }

    /** `download_clip`: the entry's file under its display name, or not
        found; the registry is left as it is. In a well-formed registry the
        path sent is that name joined onto its job's temporary directory. */
    method Download(id: string) returns (r: Download)
      ensures id !in clips ==> r == ClipNotFound
      ensures id in clips ==> r == SendFile(clips[id].path, clips[id].filename, "video/mp4")
      ensures Valid() && r.SendFile? ==> id in clips && r.path == PathJoin(clips[id].tempDir, r.downloadName)
    {
      if id !in clips {
        return ClipNotFound;
      }
      var info := clips[id];
      return SendFile(info.path, info.filename, "video/mp4");
    }

    /** `cleanup_temp_files`: every entry is visited once, its temporary
        directory is removed and the entry deleted. Returns the directories
        removed. */
    method Cleanup() returns (removed: set<string>)
      modifies this
      ensures clips == map[] && Valid()
      ensures removed == set id | id in old(clips) :: old(clips)[id].tempDir
    {
      var items := clips;
      var pending := items.Keys;
      removed := {};
      while pending != {}
        invariant pending <= items.Keys
        invariant clips.Keys == pending
        invariant forall id :: id in pending ==> clips[id] == items[id]
        invariant removed == set id | id in items.Keys - pending :: items[id].tempDir
        decreases |pending|
      {
        var id :| id in pending;
        removed := removed + {items[id].tempDir};
        clips := clips - {id};
        pending := pending - {id};
      }
    }
  }
}
