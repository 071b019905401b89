/** The string and URL helpers of the downloader: the news id of a page URL,
    the master playlist URL embedded in an episode page, file-name
    sanitising and the output path of an episode. */
module Names {
  import opened Wrappers
  import Search



  // ---------------------------------------------------------------------------
  // extract_news_id: the digits between a `/` and a `-` in a page URL
  // ---------------------------------------------------------------------------

  /** Length of the longest run of digits that starts at position `i` of `s`. */
  function DigitRun(s: string, i: nat): (n: nat)
    requires i <= |s|
    ensures i + n <= |s| && Search.AllDigits(s[i..i + n])
    ensures i + n < |s| ==> !Search.IsDigit(s[i + n])
    decreases |s| - i
  {
    if i < |s| && Search.IsDigit(s[i]) then
      var m := DigitRun(s, i + 1);
      assert s[i..i + 1 + m] == [s[i]] + s[i + 1..i + 1 + m];
      1 + m
    else 0
  }

  /** The pattern `/(\d+)-` matches at position `i`, reading the digits greedily. */
  predicate NewsIdAt(s: string, i: nat) {
    i < |s| && s[i] == '/' &&
    var n := DigitRun(s, i + 1);
    n > 0 && i + 1 + n < |s| && s[i + 1 + n] == '-'
  }

  /** The regular expression `/(\d+)-` matches `s` at position `i` with `id`
      as its group, for any way the engine may split the digits. */
  ghost predicate NewsIdPatternAt(s: string, i: nat, id: string) {
    && |id| > 0 && Search.AllDigits(id)
    && i + |id| + 2 <= |s|
    && s[i] == '/' && s[i + 1..i + 1 + |id|] == id && s[i + 1 + |id|] == '-'
  }

  /** The first match of the pattern starts at `i` and its group is `id`. */
  ghost predicate FirstNewsIdMatch(s: string, i: nat, id: string) {
    NewsIdPatternAt(s, i, id) && forall j: nat, other :: j < i ==> !NewsIdPatternAt(s, j, other)
  }

  /** The ValueError raised when a page URL carries no news id. */
  datatype NewsIdError = NoNewsId(pageUrl: string)

  function ExtractNewsId(pageUrl: string): (r: Result<string, NewsIdError>)
    ensures r.Ok? ==> |r.value| > 0 && Search.AllDigits(r.value)
    ensures r.Err? ==> r.error == NoNewsId(pageUrl)
  {
    match Search.Leftmost((i: nat) => NewsIdAt(pageUrl, i), 0, |pageUrl|)
    case None => Err(NoNewsId(pageUrl))
    case Some(i) => Ok(pageUrl[i + 1..i + 1 + DigitRun(pageUrl, i + 1)])
  }

  /** A run of `m` digits followed by a non-digit is the longest run. */
  lemma DigitRunExact(s: string, j: nat, m: nat)
    requires j + m < |s| && Search.AllDigits(s[j..j + m]) && !Search.IsDigit(s[j + m])
    ensures DigitRun(s, j) == m
  {
    var n := DigitRun(s, j);
    forall k | j <= k < j + m ensures Search.IsDigit(s[k]) {
      assert s[j..j + m][k - j] == s[k];
    }
    forall k | j <= k < j + n ensures Search.IsDigit(s[k]) {
      assert s[j..j + n][k - j] == s[k];
    }
  }

  /** Whatever split the regular expression engine tries, the group at a
      given start is the greedy run of digits. */
  lemma NewsIdPatternIsGreedy(s: string, i: nat, id: string)
    ensures NewsIdPatternAt(s, i, id) ==> NewsIdAt(s, i) && id == s[i + 1..i + 1 + DigitRun(s, i + 1)]
  {
    if NewsIdPatternAt(s, i, id) {
      DigitRunExact(s, i + 1, |id|);
    }
  }

  /** The greedy match at `i` is a match of the regular expression. */
  lemma NewsIdAtIsPattern(s: string, i: nat)
    requires NewsIdAt(s, i)
    ensures NewsIdPatternAt(s, i, s[i + 1..i + 1 + DigitRun(s, i + 1)])
  {
  }

  /** `ExtractNewsId` succeeds exactly when the pattern occurs, and then
      returns the group of its first occurrence. */
  lemma ExtractNewsIdIsFirstMatch(pageUrl: string)
    ensures ExtractNewsId(pageUrl).Ok? <==> exists i: nat, id :: NewsIdPatternAt(pageUrl, i, id)
    ensures ExtractNewsId(pageUrl).Ok? ==>
              exists i: nat :: FirstNewsIdMatch(pageUrl, i, ExtractNewsId(pageUrl).value)
  {
    var at := (i: nat) => NewsIdAt(pageUrl, i);
    var found := Search.Leftmost(at, 0, |pageUrl|);
    if found.None? {
      forall i: nat, id ensures !NewsIdPatternAt(pageUrl, i, id) {
        NewsIdPatternIsGreedy(pageUrl, i, id);
        assert i < |pageUrl| ==> !at(i);
      }
    } else {
      var i := found.value;
      assert at(i);
      var id := pageUrl[i + 1..i + 1 + DigitRun(pageUrl, i + 1)];
      assert ExtractNewsId(pageUrl) == Ok(id);
      NewsIdAtIsPattern(pageUrl, i);
      forall j: nat, other | j < i ensures !NewsIdPatternAt(pageUrl, j, other) {
        NewsIdPatternIsGreedy(pageUrl, j, other);
        assert !at(j);
      }
      assert FirstNewsIdMatch(pageUrl, i, id);
    }
  }

  // ---------------------------------------------------------------------------
  // The master playlist URL embedded in an episode page
  // ---------------------------------------------------------------------------

  const FILE_KEY := "file:\""
  const HTTPS := "https://"
  const M3U8_EXT := ".m3u8"

  /** Where the group starts and where the text after `https://` starts,
      relative to a match; a group is at least `https://`, one character and
      `.m3u8` long. */
  const GROUP_START := |FILE_KEY|
  const AFTER_HTTPS := |FILE_KEY + HTTPS|
  const MIN_URL := |HTTPS| + 1 + |M3U8_EXT|

  /** The index of the first `"` at or after position `p`, or `|s|` if none. */
  function QuoteFrom(s: string, p: nat): (q: nat)
    requires p <= |s|
  {
    Search.FirstIn(s, {'"'}, p)
  }

  /** The master-URL pattern matches at position `i`: after `file:"https://`
      the characters up to the next quote end in `.m3u8` and leave at least
      one character before it. */
  predicate MasterUrlAt(s: string, i: nat) {
    i + AFTER_HTTPS <= |s| && s[i..i + AFTER_HTTPS] == FILE_KEY + HTTPS &&
    var q := QuoteFrom(s, i + AFTER_HTTPS);
    q < |s| && i + GROUP_START + MIN_URL <= q && s[q - |M3U8_EXT|..q] == M3U8_EXT
  }

  /** `url` has the shape of the group `https://[^"]+\.m3u8`. */
  ghost predicate IsM3u8Url(url: string) {
    && |url| >= MIN_URL
    && url[..|HTTPS|] == HTTPS && url[|url| - |M3U8_EXT|..] == M3U8_EXT
    && forall k :: 0 <= k < |url| ==> url[k] != '"'
  }

  /** The regular expression matches `s` at position `i` with group `url`. */
  ghost predicate MasterUrlPatternAt(s: string, i: nat, url: string) {
    && IsM3u8Url(url)
    && i + GROUP_START + |url| < |s|
    && s[i..i + GROUP_START] == FILE_KEY && s[i + GROUP_START..i + GROUP_START + |url|] == url && s[i + GROUP_START + |url|] == '"'
  }

  ghost predicate FirstMasterUrlMatch(s: string, i: nat, url: string) {
    MasterUrlPatternAt(s, i, url) && forall j: nat, other :: j < i ==> !MasterUrlPatternAt(s, j, other)
  }

  /** The greedy match at `i` is a match of the regular expression. */
  lemma MasterUrlAtIsPattern(s: string, i: nat)
    requires MasterUrlAt(s, i)
    ensures MasterUrlPatternAt(s, i, s[i + GROUP_START..QuoteFrom(s, i + AFTER_HTTPS)])
  {
    var q := QuoteFrom(s, i + AFTER_HTTPS);
    var url := s[i + GROUP_START..q];
    assert url[..|HTTPS|] == s[i + GROUP_START..i + AFTER_HTTPS] == s[i..i + AFTER_HTTPS][GROUP_START..];
    assert url[|url| - |M3U8_EXT|..] == s[q - |M3U8_EXT|..q];
    assert s[i..i + GROUP_START] == s[i..i + AFTER_HTTPS][..GROUP_START];
    forall k | 0 <= k < |url| ensures url[k] != '"' {
      assert url[k] == s[i + GROUP_START + k];
      if k < |HTTPS| {
        assert url[k] == HTTPS[k];
      }
    }
  }

  /** The master playlist URL embedded in an episode page, if any. */
  function ExtractMasterUrl(html: string): (r: Option<string>)
    ensures r.Some? ==> IsM3u8Url(r.value)
  {
    match Search.Leftmost((i: nat) => MasterUrlAt(html, i), 0, |html|)
    case None => None
    case Some(i) =>
      MasterUrlAtIsPattern(html, i);
      Some(html[i + GROUP_START..QuoteFrom(html, i + AFTER_HTTPS)])
  }

  /** At a given start the group is unique: it ends at the first quote. */
  lemma MasterUrlPatternIsMatch(s: string, i: nat, url: string)
    ensures MasterUrlPatternAt(s, i, url) ==> MasterUrlAt(s, i) && url == s[i + GROUP_START..QuoteFrom(s, i + AFTER_HTTPS)]
  {
    if MasterUrlPatternAt(s, i, url) {
      var start, q := i + GROUP_START, i + GROUP_START + |url|;
      assert forall k :: 0 <= k < |url| ==> s[start + k] == url[k];
      assert s[i..i + AFTER_HTTPS] == FILE_KEY + HTTPS by {
        assert s[i..i + AFTER_HTTPS] == s[i..start] + url[..|HTTPS|];
      }
      assert forall k :: i + AFTER_HTTPS <= k < q ==> s[k] == url[k - start] != '"';
      assert QuoteFrom(s, i + AFTER_HTTPS) == q;
      assert s[q - |M3U8_EXT|..q] == url[|url| - |M3U8_EXT|..];
    }
  }

  /** `ExtractMasterUrl` finds a URL exactly when the pattern occurs, and
      then returns the group of its first occurrence. */
  lemma ExtractMasterUrlIsFirstMatch(html: string)
    ensures ExtractMasterUrl(html).Some? <==> exists i: nat, url :: MasterUrlPatternAt(html, i, url)
    ensures ExtractMasterUrl(html).Some? ==>
              exists i: nat :: FirstMasterUrlMatch(html, i, ExtractMasterUrl(html).value)
  {
    var at := (i: nat) => MasterUrlAt(html, i);
    var found := Search.Leftmost(at, 0, |html|);
    if found.None? {
      forall i: nat, url ensures !MasterUrlPatternAt(html, i, url) {
        MasterUrlPatternIsMatch(html, i, url);
        assert i < |html| ==> !at(i);
      }
    } else {
      var i := found.value;
      assert at(i);
      var url := html[i + GROUP_START..QuoteFrom(html, i + AFTER_HTTPS)];
      assert ExtractMasterUrl(html) == Some(url);
      MasterUrlAtIsPattern(html, i);
      forall j: nat, other | j < i ensures !MasterUrlPatternAt(html, j, other) {
        MasterUrlPatternIsMatch(html, j, other);
        assert !at(j);
      }
      assert FirstMasterUrlMatch(html, i, url);
    }
  }

  // ---------------------------------------------------------------------------
  // sanitize_filename
  // ---------------------------------------------------------------------------

  /** The characters a Windows file name may not contain. */
  const ILLEGAL: set<char> := {'\\', '/', '*', '?', ':', '"', '<', '>', '|'}

  predicate IsClean(s: string) { forall i :: 0 <= i < |s| ==> s[i] !in ILLEGAL }

  /** What becomes of one character: an illegal one is dropped. */
  function Kept(c: char): string {
    if c in ILLEGAL then [] else [c]
  }

  /** Removes every character of `ILLEGAL`, as the source's `re.sub` does. */
  function StripIllegal(s: string): (r: string)
    ensures IsClean(r)
    decreases |s|
  {
    if s == [] then [] else Kept(s[0]) + StripIllegal(s[1..])
  }

  /** `sanitize_filename`, with the platform flag as a parameter. */
  function Sanitize(isWindows: bool, name: string): (r: string)
    ensures !isWindows ==> r == name
    ensures isWindows ==> IsClean(r)
  {
    if isWindows then StripIllegal(name) else name
  }

  /** Every legal character keeps its number of occurrences. */
  lemma {:induction false} StripIllegalKeepsLegal(s: string)
    ensures forall c :: c !in ILLEGAL ==> multiset(StripIllegal(s))[c] == multiset(s)[c]
    decreases |s|
  {
    if s != [] {
      assert s == [s[0]] + s[1..];
      StripIllegalKeepsLegal(s[1..]);
    }
  }

  lemma {:induction false} StripIllegalAppend(a: string, b: string)
    ensures StripIllegal(a + b) == StripIllegal(a) + StripIllegal(b)
    decreases |a|
  {
    if a == [] {
      assert a + b == b;
    } else {
      assert (a + b)[0] == a[0] && (a + b)[1..] == a[1..] + b;
      StripIllegalAppend(a[1..], b);
    }
  }

  lemma StripIllegalOne(c: char)
    ensures StripIllegal([c]) == Kept(c)
  {
  }

  /** Every character stays where it was, or is dropped if it is illegal:
      the order of the kept characters is the input's. */
  lemma StripIllegalAt(s: string, i: nat)
    requires i < |s|
    ensures StripIllegal(s) == StripIllegal(s[..i]) + (Kept(s[i]) + StripIllegal(s[i + 1..]))
  {
    var pre, one, post := s[..i], [s[i]], s[i + 1..];
    SplitAround(s, i);
    StripIllegalAppend(pre, one + post);
    StripIllegalAppend(one, post);
    StripIllegalOne(s[i]);
  }

  lemma SplitAround(s: string, i: nat)
    requires i < |s|
    ensures s == s[..i] + ([s[i]] + s[i + 1..])
  {
  }

  lemma {:induction false} StripIllegalOfClean(s: string)
    requires IsClean(s)
    ensures StripIllegal(s) == s
    decreases |s|
  {
    if s != [] {
      StripIllegalOfClean(s[1..]);
    }
  }

  /** Sanitising a sanitised name changes nothing. */
  lemma SanitizeIdempotent(isWindows: bool, name: string)
    ensures Sanitize(isWindows, Sanitize(isWindows, name)) == Sanitize(isWindows, name)
  {
    if isWindows {
      StripIllegalOfClean(StripIllegal(name));
    }
  }

  // ---------------------------------------------------------------------------
  // The output path of an episode: the sanitised title plus `.mp4`, in the output directory
  // ---------------------------------------------------------------------------

  const MP4_EXT := ".mp4"

  /** The separator `os.path.join` inserts on the platform. */
  function Separator(isWindows: bool): char { if isWindows then '\\' else '/' }

  /** A Windows path that is a drive and nothing else, such as `C:`. */
  predicate IsBareDrive(dir: string) {
    |dir| == 2 && dir[1] == ':' && dir[0] != '\\' && dir[0] != '/'
  }

  /** `os.path.join` puts a separator between `dir` and the name: `dir` is
      not empty and does not already end in a separator (on Windows, either
      slash) and, on Windows, is not a bare drive. */
  predicate NeedsSeparator(isWindows: bool, dir: string) {
    && dir != []
    && dir[|dir| - 1] != '/'
    && (isWindows ==> dir[|dir| - 1] != '\\' && !IsBareDrive(dir))
  }

  /** What `os.path.join` puts between `dir` and the name. */
  function SeparatorAfter(isWindows: bool, dir: string): string {
    if NeedsSeparator(isWindows, dir) then [Separator(isWindows)] else []
  }

  /** `os.path.join(dir, name)`: posixpath.join on POSIX, where an absolute
      `name` replaces `dir`; ntpath.join on Windows for a name that has no
      drive and no root, which every sanitised name satisfies. */
  function JoinPath(isWindows: bool, dir: string, name: string): (r: string)
    requires isWindows ==> IsClean(name)
    ensures IsAbsoluteOnPosix(isWindows, name) ==> r == name
    ensures !IsAbsoluteOnPosix(isWindows, name) ==> r == dir + SeparatorAfter(isWindows, dir) + name
  {
    if isWindows then
      if dir != [] && dir[|dir| - 1] != '\\' && dir[|dir| - 1] != '/' && !IsBareDrive(dir)
      then dir + "\\" + name
      else dir + name
    else if |name| > 0 && name[0] == '/' then name
    else if dir == [] || dir[|dir| - 1] == '/' then dir + name
    else dir + "/" + name
  }

  /** A POSIX title that starts with `/` is an absolute path. */
  predicate IsAbsoluteOnPosix(isWindows: bool, title: string) {
    !isWindows && |title| > 0 && title[0] == '/'
  }

  /** The path of one of an episode's files: the sanitised title followed by
      `suffix`, joined to `outDir`. Except for an absolute POSIX title, the
      path is `outDir`, the separator `os.path.join` adds, then the file
      name; an absolute POSIX title ignores `outDir`. On Windows the file
      name holds no separator, so the file is directly in `outDir`; on POSIX
      a `/` inside the title names a subdirectory. */
  function EpisodePath(isWindows: bool, outDir: string, title: string, suffix: string): (r: string)
    requires IsClean(suffix)
    ensures var name := Sanitize(isWindows, title) + suffix;
            |r| >= |name| && r[|r| - |name|..] == name
    ensures !IsAbsoluteOnPosix(isWindows, title) ==>
              r == outDir + SeparatorAfter(isWindows, outDir) + (Sanitize(isWindows, title) + suffix)
    ensures IsAbsoluteOnPosix(isWindows, title) ==> r == title + suffix
    ensures isWindows ==> IsClean(r[|r| - |Sanitize(isWindows, title) + suffix|..])
  {
    var name := Sanitize(isWindows, title) + suffix;
    assert isWindows ==> IsClean(name);
    JoinPath(isWindows, outDir, name)
  }

  /** A file name with no separator of the platform in it. */
  predicate IsBaseName(isWindows: bool, name: string) {
    forall k :: 0 <= k < |name| ==> name[k] != '/' && (isWindows ==> name[k] != '\\')
  }

  /** When `os.path.join` adds a separator, the episode's file lies directly
      in `outDir`: the path is `outDir`, one separator and a name without
      separators. On Windows that holds for every title, on POSIX for a
      title without `/`. */
  lemma EpisodePathIsInOutDir(isWindows: bool, outDir: string, title: string, suffix: string)
    requires IsClean(suffix) && NeedsSeparator(isWindows, outDir)
    requires !isWindows ==> '/' !in title
    ensures var r := EpisodePath(isWindows, outDir, title, suffix);
            var name := r[|outDir| + 1..];
            && |r| > |outDir|
            && r[..|outDir|] == outDir && r[|outDir|] == Separator(isWindows)
            && name == Sanitize(isWindows, title) + suffix
            && IsBaseName(isWindows, name)
  {
    var name := Sanitize(isWindows, title) + suffix;
    var r := EpisodePath(isWindows, outDir, title, suffix);
    assert r == outDir + [Separator(isWindows)] + name;
    assert r[|outDir| + 1..] == name;
    forall k | 0 <= k < |name| ensures name[k] != '/' && (isWindows ==> name[k] != '\\') {
      if k < |Sanitize(isWindows, title)| {
        assert name[k] == Sanitize(isWindows, title)[k];
        if !isWindows {
          assert name[k] == title[k];
        }
      } else {
        assert name[k] == suffix[k - |Sanitize(isWindows, title)|];
      }
    }
  }

  /** Where `download_and_mux` writes an episode. */
  function OutputPath(isWindows: bool, outDir: string, title: string): (r: string)
    ensures !IsAbsoluteOnPosix(isWindows, title) ==>
              r == outDir + SeparatorAfter(isWindows, outDir) + (Sanitize(isWindows, title) + MP4_EXT)
    ensures IsAbsoluteOnPosix(isWindows, title) ==> r == title + MP4_EXT
  {
    EpisodePath(isWindows, outDir, title, MP4_EXT)
  }

  const PROGRESS_SUFFIX := "_prog.txt"

  /** The progress file ffmpeg is told to write next to the episode. */
  function ProgressPath(isWindows: bool, outDir: string, title: string): (r: string)
    ensures !IsAbsoluteOnPosix(isWindows, title) ==>
              r == outDir + SeparatorAfter(isWindows, outDir) + (Sanitize(isWindows, title) + PROGRESS_SUFFIX)
    ensures IsAbsoluteOnPosix(isWindows, title) ==> r == title + PROGRESS_SUFFIX
  {
    EpisodePath(isWindows, outDir, title, PROGRESS_SUFFIX)
  }

  /** The progress file never lands on the episode itself. */
  lemma ProgressPathIsNotOutputPath(isWindows: bool, outDir: string, title: string)
    ensures ProgressPath(isWindows, outDir, title) != OutputPath(isWindows, outDir, title)
  {
  }
}
