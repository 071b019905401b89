# uakino-downloader: a Dafny model of the episode download job

uakino-downloader downloads the episodes of a series from uakino.me. Each
episode has a page. The page embeds the URL of an HLS master playlist. The
downloader picks the rendition with the largest bandwidth and has ffmpeg copy
it into `<title>.mp4`, while a monitor thread reads ffmpeg's `-progress` file
and moves a progress bar forward.

This project models the core of that job and proves properties of it:

- `wrappers.dfy`: `Option` and `Result`.
- `search.dfy`: leftmost search. This is how `re.search` and the string `in` operator pick the first match.
- `names.dfy`:
  - the news id of a page URL (`extract_news_id`);
  - the master playlist URL embedded in an episode page;
  - `sanitize_filename`;
  - the output and progress file paths (`os.path.join` on POSIX and on Windows).
- `variants.dfy`: `pick_best_variant`.
  - Python's `max` with a key returns the first largest item.
  - `sum` adds up the segment durations.
  - Loading a playlist and `urljoin` are parameters.
- `progress_file.dfy`: reading one snapshot of the progress file.
  - It uses `str.splitlines`, `str.strip`, `int()` and `line.split('=')[1]`.
  - The result is the last well-formed `out_time_ms` value, in microseconds.
  - This comes both as a specification function and as the loop that computes it.
- `progress.dfy`: the monitor thread.
  - A pure transition function `Step` says what one round does.
  - `ProgressMonitor` is a class whose methods update `last_progress`, the bar's count and the monitor's phase in place. They are proved against `Step`.
- `jobs.dfy`: `download_and_mux` as a function of an environment. The environment holds the file system check, the HTTP session, the playlist loader, `urljoin` and the ffmpeg run.
  - If the file already exists, the job is skipped.
  - Otherwise the page is fetched, its master URL is found, a rendition is picked and the stream is transcoded.
  - Every failure becomes an error result.

Durations are integer microseconds. The percentage is
`min(out_us * 100 / total_us, 100)`, rounded down.

## Model

| member | source | states |
|---|---|---|
| Names.ExtractNewsId | downloader.py:52-56 | a news id is a non-empty run of digits; when none is found, the error names the page URL |
| Names.ExtractNewsIdIsFirstMatch | downloader.py:53-56 | a news id is found exactly when `/(\d+)-` occurs in the URL, and it is the group of the leftmost occurrence |
| Names.NewsIdPatternIsGreedy | downloader.py:53 | every way the regex engine can match `/(\d+)-` at a given position yields the same group: the whole run of digits |
| Names.ExtractMasterUrl | downloader.py:150-153 | a found URL starts with `https://`, ends with `.m3u8` and contains no quote |
| Names.ExtractMasterUrlIsFirstMatch | downloader.py:150-153 | a URL is found exactly when `file:"(https://[^"]+\.m3u8)"` occurs in the page, and it is the group of the leftmost occurrence |
| Names.MasterUrlPatternIsMatch | downloader.py:150 | at a given position the regex group is unique: it ends at the first quote after `https://` |
| Names.StripIllegal | downloader.py:118 | the result holds none of the nine characters Windows forbids in file names |
| Names.Sanitize | downloader.py:114-119 | on POSIX the name is unchanged; on Windows the result holds none of the nine characters Windows forbids in file names (backslash, slash, colon, asterisk, question mark, double quote, angle brackets, vertical bar) |
| Names.StripIllegalKeepsLegal | downloader.py:118 | every legal character occurs as often in the result as in the input |
| Names.StripIllegalAppend | downloader.py:118 | removing illegal characters from two joined strings gives the two results joined |
| Names.StripIllegalAt | downloader.py:118 | each character stays in its place or, if illegal, is removed, so the kept characters keep their order |
| Names.SanitizeIdempotent | downloader.py:114-119 | sanitising a sanitised name changes nothing |
| Names.JoinPath | downloader.py:142 | `os.path.join(dir, name)`: a POSIX name starting with `/` is returned as it is; otherwise the result is `dir`, then a separator exactly when `dir` is not empty, does not end in a separator and (on Windows) is not a bare drive such as `C:`, then `name` |
| Names.EpisodePath | downloader.py:138-142 | the path of an episode file ends with the sanitised title plus its suffix (`.mp4` for the video, `_prog.txt` for the progress file, line 156); unless the title is an absolute POSIX path, it is exactly `out_dir`, the separator `os.path.join` adds, and that file name; a POSIX title starting with `/` replaces `out_dir`; on Windows the file name holds no illegal character |
| Names.EpisodePathIsInOutDir | downloader.py:138-142 | when a separator is added, the file lies directly in `out_dir`: the path is `out_dir`, one separator and a file name without separators (on Windows for every title, on POSIX for a title without `/`) |
| Names.OutputPath | downloader.py:138-142 | the video's path is `out_dir`, the added separator and the sanitised title plus `.mp4`, or the title plus `.mp4` for an absolute POSIX title |
| Names.ProgressPath | downloader.py:156 | the progress file's path is `out_dir`, the added separator and the sanitised title plus `_prog.txt`, or the title plus `_prog.txt` for an absolute POSIX title |
| Names.ProgressPathIsNotOutputPath | downloader.py:156 | the progress file and the video are never the same path |
| Variants.Key | downloader.py:104 | `bandwidth or 0`: a rendition without a bandwidth ranks as 0, one with a bandwidth (negative ones included) ranks as that bandwidth |
| Variants.MissingBandwidthOutranksNegative | downloader.py:104 | a rendition without a bandwidth is chosen over an earlier one with a negative bandwidth |
| Variants.BestIndex | downloader.py:104 | the chosen rendition's bandwidth (0 when it has none) is the largest, and every rendition before it has a strictly smaller one |
| Variants.FirstBestIsUnique | downloader.py:104 | only one rendition satisfies the first-largest rule |
| Variants.PickBestVariant | downloader.py:101-111 | a media playlist is played as given, with the sum of its segment durations. For a master playlist: with no renditions, `max` fails; a failed load is an error; otherwise the first rendition of largest bandwidth is resolved against the master URL and loaded |
| Variants.SelectionDurationIsSegmentSum | downloader.py:101-111 | a successful selection's duration is the sum of the segments of the playlist its URL loads |
| Variants.SumAppend | downloader.py:107 | the sum of two concatenated lists of durations is the sum of their sums |
| Variants.SumBoundsEach | downloader.py:107 | no segment lasts longer than the total |
| Variants.SumZero | downloader.py:107 | the total is zero exactly when every segment has zero duration |
| Variants.SumExample | downloader.py:107 | segments of 4.0 s, 4.0 s and 2.5 s total 10.5 s |
| ProgressFile.SplitLines | downloader.py:193 | no returned line contains a line break |
| ProgressFile.SplitLinesOfTerminated | downloader.py:193 | splitting newline-terminated lines returns exactly those lines |
| ProgressFile.SplitLinesOfPartial | downloader.py:193 | splitting newline-terminated lines followed by a non-empty partial line returns those lines and then the partial line |
| ProgressFile.Strip | downloader.py:196 | the result neither starts nor ends with white space |
| ProgressFile.StripRemovesSpaceOnly | downloader.py:196 | the result is a slice of the input, and everything cut off on either side is white space |
| ProgressFile.SecondField | downloader.py:196 | a second field exists exactly when the line contains `=`, and it contains no `=` |
| ProgressFile.SecondFieldOf | downloader.py:196 | for `a` and `b` without `=`, the second field of `a=b` and of `a=b=...` is `b` |
| ProgressFile.ParseInt | downloader.py:196 | `int()` accepts exactly an optionally signed decimal literal (digits, single underscores between digits) between white space, and a negative result comes from a leading `-` |
| ProgressFile.ParseIntOfDigits | downloader.py:196 | `int()` reads a run of digits as its decimal value |
| ProgressFile.ParseIntOfNegative | downloader.py:196 | `int()` reads `-` followed by digits as the negated value |
| ProgressFile.DecimalValueOfShowNat | downloader.py:196 | reading the digits printed for `n` gives back `n` |
| ProgressFile.ParseIntOfShowInt | downloader.py:196 | `int()` reads back any printed integer |
| Search.Contains | downloader.py:187 | `sub in s` holds exactly when `sub` occurs in `s` at some position |
| ProgressFile.LineOutTimeSkips | downloader.py:194-198 | a line without `out_time_ms`, or without `=` (the caught `IndexError`), yields no value |
| ProgressFile.LineOutTimeOfReport | downloader.py:194-196 | ffmpeg's line `out_time_ms=<n>` yields `n` |
| ProgressFile.OutTimeOfLastReport | downloader.py:192-198 | a snapshot whose last report is `out_time_ms=<n>`, followed only by lines without a value and possibly an unfinished line without one, reads as `n` |
| ProgressFile.LastValue | downloader.py:192-198 | with no usable line the value is 0; otherwise it is the value of the last usable line |
| ProgressFile.ParseOutTime | downloader.py:191-198 | the parse loop returns the last `out_time_ms` value that parses, skipping lines that raise, and 0 if none parses |
| Progress.Percent | downloader.py:200-201 | the percentage is between 0 and 100; it is 100 exactly when the output reaches the total; below 100 it is the rounded-down ratio |
| Progress.PercentMonotone | downloader.py:200-201 | more output never gives a smaller percentage |
| Progress.Step | downloader.py:176-226 | one round keeps the invariant (bar count equals `last_progress` until the end marker makes it 100) and never lowers either; a missing file is waited for before the file is first seen and stops the monitor after; a read error changes nothing; `progress=end` fills the bar and stops; otherwise `last_progress` becomes the larger of itself and the percentage read (when time and total are positive) and the bar moves by the same amount |
| Progress.RunKeepsInv | downloader.py:176-226 | over any series of rounds the bookkeeping holds, and neither `last_progress` nor the bar decreases |
| Progress.RunStopped | downloader.py:187-188 | a stopped monitor ignores everything after it stops |
| Progress.LastProgressIsMaxReported | downloader.py:199-218 | while every read is readable and lacks the end marker, `last_progress` is the largest percentage read so far (or its starting value, if larger), and the monitor keeps polling |
| Progress.EndMarkerFillsBar | downloader.py:186-188 | once a read reports `progress=end`, the bar is full and stays full |
| Progress.WaitsWhileMissing | downloader.py:179-180 | while the progress file never appears, the monitor waits forever |
| Progress.BarBounded | downloader.py:168-226 | from the start, the bar never passes 100, and it shows `last_progress` until the end marker fills it |
| Progress.ProgressMonitor.constructor | downloader.py:168-173 | `last_progress` and the bar start at 0, waiting for the file |
| Progress.ProgressMonitor.Poll | downloader.py:181-226 | one round updates the fields as `Step` prescribes and reports whether the loop ended |
| Progress.ProgressMonitor.Read | downloader.py:183-218 | a round that read the file's text updates the fields as `Step` prescribes for that text |
| Progress.ProgressMonitor.Watch | downloader.py:179-226 | rounds run until the monitor stops, and the final state is `Run` of all observations |
| Jobs.FetchPage | downloader.py:147-149 | a page is returned exactly when the request succeeds with a status outside 400-599; a failed request is a transport error, and a status in 400-599 is reported as that status |
| Jobs.Prepare | downloader.py:147-154 | a request failure is passed on; "M3U8 not found" is reported exactly when a fetched page has no master URL; for a fetched page with a master URL the result is the rendition choice for that URL, or its failure as a playlist error; a selection always comes from the first master URL of a fetched page |
| Jobs.DownloadAndMux | downloader.py:134-244 | the title is returned unchanged; `exists` exactly when the output file already exists; `downloaded` exactly when every stage succeeded and ffmpeg copied the picked rendition into the output path, with the progress file next to it; otherwise the error of the first stage that failed |
| Jobs.ExistingFileSkipsNetwork | downloader.py:143-144 | when the file exists, the outcome depends on neither the network, the playlists nor ffmpeg |
| Jobs.RerunAfterDownload | downloader.py:143-144 | once a job has downloaded its file, running it again reports `exists` at the same path |

## Left out

- The HTTP session: the retry policy and headers of `create_session` are not modelled. A request is a parameter that returns a response or fails.
- `fetch_playlists_html`, `parse_playlists`, `get_ffmpeg_path`, `ensure_ffmpeg_installed` and `main` are not part of this model. They parse JSON and HTML and handle console I/O.
- The ffmpeg command line and `ffmpeg.run` are a parameter that succeeds or fails. Environment variables are not modelled.
- `os.makedirs(out_dir, exist_ok=True)` (downloader.py:136) is assumed to succeed. Its failure path is not modelled.
- The m3u8 parser: a loaded playlist is given as data.
- Concurrency: the monitor thread runs beside ffmpeg, and four jobs run in a thread pool. This model represents the monitor's rounds as a sequence of observations of the progress file and treats each job on its own. `download_and_mux` returns `downloaded` only after `thread.join()` (downloader.py:239), that is, after the monitor has stopped. When `ffmpeg.run` raises, the job returns its error without joining the monitor; if the progress file never appeared, that thread then waits forever, as `Progress.WaitsWhileMissing` shows for the model.
- The download speed estimate (downloader.py:205-215), the tqdm rendering and bar positions, the sleeps and logging are left out. The size query at downloader.py:209 can raise, before `bar.update`: a `FileNotFoundError` there ends the monitor (222-223) and any other error skips the update (224-227). The model takes such a round as a `Missing` or an `Unreadable` observation.
- The progress file's removal after the monitor stops (downloader.py:229-233) is left out.
- Error messages: Python exceptions and their texts become the `JobError` constructors.
- Progress.Percent: the source divides floating-point seconds. The model takes the exact rounded-down ratio of integer microseconds. The two can differ by one where float rounding crosses an integer.
- Variants.PickBestVariant: segment durations are non-negative integer microseconds rather than floats. The playlist parser reads `#EXTINF` with `float()` and would accept a negative duration; HLS requires them to be non-negative, and the model cannot express a negative one. A total of zero or less makes the source's bar stand still (line 201), which the model shows only for a total of zero.
- Names.ExtractNewsId: `\d` is read as the ASCII digits only. Python also accepts other Unicode decimal digits.
- ProgressFile.ParseInt: it reads ASCII digits only. Python's `int()` also accepts other Unicode decimal digits. Python also raises `ValueError` for a literal of more than 4300 digits, and the source then skips the line; the model reads such a literal. ffmpeg writes `out_time_ms` as a 64-bit integer, at most 20 characters long.
- ProgressFile.LineOutTime: the source divides the value by 1 000 000 as a float (line 196). For a value above about 1.8e314 that raises `OverflowError`, which line 197 does not catch, so the source logs the whole round as an error (224-227). The model reads the value. A 64-bit value cannot reach that size.
- Names.JoinPath: on Windows, only directory strings are modelled. A UNC share name that ends in `:` is not treated specially.
