/** The names the server derives from an uploaded file's name: the upload
    gate on the extension (`allowed_file`), the base token of the clip names
    (`get_first_word`) and the display name of each clip. Paths follow
    POSIX `os.path` (`posixpath`). */
module Filenames {
  import opened Wrappers
  import opened Text
  import opened Timestamps

  /** `ALLOWED_EXTENSIONS`. */
  const AllowedExtensions: set<string> :=
    {"mp4", "avi", "mov", "mkv", "webm", "flv", "wmv", "mpg", "mpeg", "m4v"}

  /** `allowed_file`: there is a `.`, and the text after the last one,
      lower-cased, is an allowed extension. */
  function AllowedFile(filename: string): (ok: bool)
    ensures ok <==> exists i :: 0 <= i < |filename| && filename[i] == '.' && '.' !in filename[i + 1..]
                                  && Lower(filename[i + 1..]) in AllowedExtensions
  {
    var dot := RFind(filename, '.');
    if dot >= 0 then
      Lower(filename[dot + 1..]) in AllowedExtensions
    else false
  }

  /** The gate looks at exactly the text after the last `.`. */
  lemma AllowedFileExtension(stem: string, ext: string)
    requires '.' !in ext
    ensures AllowedFile(stem + "." + ext) <==> Lower(ext) in AllowedExtensions
  {
    var f := stem + "." + ext;
    assert f[|stem|] == '.';
    assert f[|stem| + 1..] == ext;
  }

  /** The same, read off the end of a name: `.ext` closes it. */
  lemma AllowedFileSuffix(f: string, ext: string)
    requires '.' !in ext && |f| > |ext| && f[|f| - |ext| - 1] == '.' && f[|f| - |ext|..] == ext
    ensures AllowedFile(f) <==> Lower(ext) in AllowedExtensions
  {
    var stem := f[..|f| - |ext| - 1];
    EndsWith(f, ext);
    AllowedFileExtension(stem, ext);
  }

  lemma EndsWith(f: string, ext: string)
    requires |f| > |ext| && f[|f| - |ext| - 1] == '.' && f[|f| - |ext|..] == ext
    ensures f == f[..|f| - |ext| - 1] + "." + ext
  {
  }

  /** A name without a `.` is refused. */
  lemma NoDotRefused(filename: string)
    requires '.' !in filename
    ensures !AllowedFile(filename)
  {
  }

  lemma AllowedUpperCase()
    ensures AllowedFile("Holiday.MP4")
  {
    assert Lower("MP4") == "mp4";
    assert "mp4" in AllowedExtensions;
    assert "Holiday" + "." + "MP4" == "Holiday.MP4";
    AllowedFileExtension("Holiday", "MP4");
  }

  lemma AllowedLastDot()
    ensures AllowedFile("a.b.mkv")
  {
    assert Lower("mkv") == "mkv";
    assert "mkv" in AllowedExtensions;
    assert "a.b" + "." + "mkv" == "a.b.mkv";
    AllowedFileExtension("a.b", "mkv");
  }

  lemma RefusedExtension()
    ensures !AllowedFile("notes.txt")
  {
    assert Lower("txt") == "txt";
    assert "txt" !in AllowedExtensions;
    assert "notes" + "." + "txt" == "notes.txt";
    AllowedFileExtension("notes", "txt");
  }

  /** `posixpath.splitext(p)[0]`: `p` without the text from its last `.`,
      provided that `.` comes after the last `/` and is not part of the run
      of dots that starts the last path component. */
  function SplitExtRoot(p: string): (root: string)
    ensures root == p || (RFind(p, '.') > RFind(p, '/') && root == p[..RFind(p, '.')])
  {
    var sep, dot := RFind(p, '/'), RFind(p, '.');
    if dot > sep && exists i :: sep < i < dot && p[i] != '.' then p[..dot] else p
  }

  /** The root of `stem.ext` is `stem` when `ext` has no `.` or `/` and
      `stem` is not a bare run of dots. */
  lemma SplitExtRootOf(stem: string, ext: string)
    requires '.' !in ext && '/' !in ext
    requires '/' !in stem && exists i :: 0 <= i < |stem| && stem[i] != '.'
    ensures SplitExtRoot(stem + "." + ext) == stem
  {
    var p := stem + "." + ext;
    var i :| 0 <= i < |stem| && stem[i] != '.';
    assert p[|stem|] == '.';
    var dot, sep := RFind(p, '.'), RFind(p, '/');
    assert dot == |stem|;
    assert sep == -1 by {
      forall k | 0 <= k < |p| ensures p[k] != '/' {
        if k < |stem| {
          assert p[k] == stem[k];
        } else if k > |stem| {
          assert p[k] == ext[k - |stem| - 1];
        }
      }
    }
    assert p[i] == stem[i];
    assert p[..dot] == stem;
  }

  /** The delimiter `get_first_word` cuts at: a space if there is one,
      otherwise the first of `_`, `-`, `.` that occurs. */
  function Delimiter(name: string): (d: Option<char>)
    ensures d.Some? ==> d.value in name && d.value in " _-."
    ensures d == Some(' ') <==> ' ' in name
    ensures d == Some('_') <==> ' ' !in name && '_' in name
    ensures d == Some('-') <==> ' ' !in name && '_' !in name && '-' in name
    ensures d == Some('.') <==> ' ' !in name && '_' !in name && '-' !in name && '.' in name
    ensures d.None? <==> ' ' !in name && '_' !in name && '-' !in name && '.' !in name
  {
    if ' ' in name then Some(' ')
    else if '_' in name then Some('_')
    else if '-' in name then Some('-')
    else if '.' in name then Some('.')
    else None
  }

  /** `get_first_word`: the text of the extension-less name before its
      delimiter; the whole name when it has none; `"clip"` when it is empty. */
  function FirstWord(filename: string): (word: string)
    ensures var name := SplitExtRoot(filename);
      && (name == [] ==> word == "clip")
      && (name != [] ==> |word| <= |name| && word == name[..|word|])
      && (Delimiter(name).Some? ==> Delimiter(name).value !in word)
  {
    var name := SplitExtRoot(filename);
    match Delimiter(name)
    case Some(d) =>
      SplitHead(name, d);
      Split(name, d)[0]
    case None => if name == [] then "clip" else name
  }

  /** `word` is the text of `name` before the first `d`. */
  predicate CutBefore(name: string, d: char, word: string)
  {
    |word| < |name| && word == name[..|word|] && d !in word && name[|word|] == d
  }

  /** `get_first_word` in full: a space wins; then `_`, `-` and `.` in that
      order; the result is the text before the first occurrence of the
      delimiter chosen, and the name itself (or `"clip"` when the name is
      empty) when there is no delimiter. */
  lemma FirstWordSpec(filename: string)
    ensures var name, word := SplitExtRoot(filename), FirstWord(filename);
      && (' ' in name ==> CutBefore(name, ' ', word))
      && (' ' !in name && '_' in name ==> CutBefore(name, '_', word))
      && (' ' !in name && '_' !in name && '-' in name ==> CutBefore(name, '-', word))
      && (' ' !in name && '_' !in name && '-' !in name && '.' in name ==> CutBefore(name, '.', word))
      && (' ' !in name && '_' !in name && '-' !in name && '.' !in name ==>
            word == if name == [] then "clip" else name)
  {
    var name := SplitExtRoot(filename);
    match Delimiter(name)
    case Some(d) => SplitHead(name, d);
    case None =>
  }

  /** The word is a prefix of the extension-less name, except that an empty
      name gives `"clip"`. */
  lemma FirstWordPrefix(filename: string)
    ensures var name, word := SplitExtRoot(filename), FirstWord(filename);
      && (name == [] ==> word == "clip")
      && (name != [] ==> |word| <= |name| && word == name[..|word|])
  {
    var name := SplitExtRoot(filename);
    FirstWordSpec(filename);
  }

  /** The word is empty exactly when the name starts with the delimiter
      chosen: the `"clip"` fallback only covers an empty name. */
  lemma FirstWordEmpty(filename: string)
    ensures var name := SplitExtRoot(filename);
      FirstWord(filename) == [] <==> Delimiter(name).Some? && name != [] && name[0] == Delimiter(name).value
  {
    FirstWordSpec(filename);
  }

  lemma FirstWordAtSpace()
    ensures FirstWord("My Clip.mp4") == "My"
  {
    assert "My Clip" + "." + "mp4" == "My Clip.mp4";
    RootExample("My Clip", "mp4");
    FirstPieceExample();
  }

  lemma FirstPieceExample()
    ensures Split("My Clip", ' ')[0] == "My"
  {
    assert "My Clip"[2] == ' ';
    SplitHead("My Clip", ' ');
  }

  /** The code does not fall back to `"clip"` when the name starts with its
      delimiter. */
  lemma FirstWordLeadingDelimiter()
    ensures FirstWord("_.mp4") == ""
  {
    assert "_" + "." + "mp4" == "_.mp4";
    RootExample("_", "mp4");
    FirstWordSpec("_.mp4");
  }

  lemma FirstWordWholeName()
    ensures FirstWord("Trip.mp4") == "Trip"
  {
    assert "Trip" + "." + "mp4" == "Trip.mp4";
    RootExample("Trip", "mp4");
    NoDelimiterExample();
  }

  lemma NoDelimiterExample()
    ensures Delimiter("Trip") == None
  {
    assert ' ' !in "Trip" && '_' !in "Trip" && '-' !in "Trip" && '.' !in "Trip";
  }

  lemma RootExample(stem: string, ext: string)
    requires '.' !in ext && '/' !in ext && '/' !in stem && stem != [] && stem[0] != '.'
    ensures SplitExtRoot(stem + "." + ext) == stem
  {
    SplitExtRootOf(stem, ext);
  }

  /** The name of the `i`-th clip: `first-i-[start - end].mp4`, with every
      `:` of the range labels written as `_`. */
  function ClipName(first: string, i: nat, range: TimeRange): (name: string)
    ensures |name| > |first| + 5 && name[..|first| + 1] == first + "-"
    ensures name[|name| - 4..] == ".mp4"
  {
    var name := first + "-" + NatStr(i) + RangeTag(range);
    assert name == (first + "-") + (NatStr(i) + RangeTag(range));
    assert name[|name| - 4..] == RangeTag(range)[|RangeTag(range)| - 4..];
    name
  }

  /** The part of a clip name after its number. */
  function RangeTag(range: TimeRange): (tag: string)
    ensures |tag| > 4 && tag[0] == '-' && tag[|tag| - 4..] == ".mp4"
  {
    "-[" + ColonsToUnderscores(range.startStr) + " - " + ColonsToUnderscores(range.endStr) + "].mp4"
  }

  /** Clips with different numbers get different names. */
  lemma ClipNameInjective(first: string, i: nat, j: nat, a: TimeRange, b: TimeRange)
    requires ClipName(first, i, a) == ClipName(first, j, b)
    ensures i == j
  {
    ClipNameParts(first, i, a);
    ClipNameParts(first, j, b);
    DigitsPrefix(NatStr(i), RangeTag(a), NatStr(j), RangeTag(b));
    NatStrInjective(i, j);
  }

  /** Two digit runs each followed by a non-digit split a string the same way. */
  lemma DigitsPrefix(a: string, x: string, b: string, y: string)
    requires AllDigits(a) && AllDigits(b)
    requires x != [] && !IsDigit(x[0]) && y != [] && !IsDigit(y[0])
    requires a + x == b + y
    ensures a == b
  {
    DigitRunOf(a, x);
    DigitRunOf(b, y);
    assert a == (a + x)[..|a|];
    assert b == (b + y)[..|b|];
  }

  /** The length of the run of digits that starts `s`. */
  function DigitRun(s: string): nat
  {
    if s != [] && IsDigit(s[0]) then 1 + DigitRun(s[1..]) else 0
  }

  lemma {:induction false} DigitRunOf(a: string, x: string)
    requires AllDigits(a) && x != [] && !IsDigit(x[0])
    ensures DigitRun(a + x) == |a|
  {
    if a != [] {
      assert (a + x)[1..] == a[1..] + x;
      DigitRunOf(a[1..], x);
    }
  }

  /** A clip name is its first word, a `-`, the clip's number and the
      range tag, in that order. */
  lemma ClipNameParts(first: string, i: nat, range: TimeRange)
    ensures var name := ClipName(first, i, range);
      && |name| > |first|
      && name[..|first| + 1] == first + "-"
      && name[|first| + 1..] == NatStr(i) + RangeTag(range)
  {
    assert ClipName(first, i, range) == (first + "-") + (NatStr(i) + RangeTag(range));
  }

  /** Every clip name passes the upload gate: it ends in `.mp4`. */
  lemma ClipNameAllowed(first: string, i: nat, range: TimeRange)
    ensures AllowedFile(ClipName(first, i, range))
  {
    var name, tag := ClipName(first, i, range), RangeTag(range);
    var m := |name| - |tag|;
    assert name[m..] == tag;
    assert tag[|tag| - 4..] == ".mp4";
    assert name[|name| - 4] == '.';
    assert name[|name| - 3..] == "mp4";
    assert Lower("mp4") == "mp4";
    AllowedFileSuffix(name, "mp4");
  }

  lemma ClipNameExample()
    ensures ClipName("Show", 2, TimeRange(60, 150, "1:00", "2:30")) == "Show-2-[1_00 - 2_30].mp4"
  {
    assert "Show" + "-" + NatStr(2) == "Show-2";
    RangeTagExample();
    ExampleConcat();
  }

  lemma ExampleConcat()
    ensures "Show-2" + "-[1_00 - 2_30].mp4" == "Show-2-[1_00 - 2_30].mp4"
  {
  }

  lemma RangeTagExample()
    ensures RangeTag(TimeRange(60, 150, "1:00", "2:30")) == "-[1_00 - 2_30].mp4"
  {
    ColonsExample();
    TagConcat();
  }

  lemma ColonsExample()
    ensures ColonsToUnderscores("1:00") == "1_00" && ColonsToUnderscores("2:30") == "2_30"
  {
  }

  lemma TagConcat()
    ensures "-[" + "1_00" + " - " + "2_30" + "].mp4" == "-[1_00 - 2_30].mp4"
  {
  }
}
