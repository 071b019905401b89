/** Reading the progress file ffmpeg writes with `-progress`: its text is a
    series of `key=value` lines, and the monitor wants the elapsed output
    time from the last well-formed `out_time_ms` line. Despite its name,
    ffmpeg writes that value in microseconds. */
module ProgressFile {
  import opened Wrappers
  import Search

  // ---------------------------------------------------------------------------
  // str.splitlines
  // ---------------------------------------------------------------------------

  /** The characters `str.splitlines` breaks lines at; `\r\n` counts as one break. */
  const LINE_BREAKS: set<char> :=
    {'\n', '\r', '\U{0B}', '\U{0C}', '\U{1C}', '\U{1D}', '\U{1E}', '\U{85}', '\U{2028}', '\U{2029}'}

  predicate NoBreak(line: string) { forall i :: 0 <= i < |line| ==> line[i] !in LINE_BREAKS }

  /** `text.splitlines()`: the lines without their terminators, and no empty
      last line after a final terminator. */
  function SplitLines(text: string): (lines: seq<string>)
    ensures forall i :: 0 <= i < |lines| ==> NoBreak(lines[i])
    decreases |text|
  {
    if text == [] then []
    else
      var k := Search.FirstIn(text, LINE_BREAKS, 0);
      if k == |text| then [text]
      else
        var width := if text[k] == '\r' && k + 1 < |text| && text[k + 1] == '\n' then 2 else 1;
        [text[..k]] + SplitLines(text[k + width..])
  }

  /** The text of `lines`, each followed by a newline, as ffmpeg writes them. */
  function Terminated(lines: seq<string>): string
    decreases |lines|
  {
    if lines == [] then [] else lines[0] + "\n" + Terminated(lines[1..])
  }

  /** A line without breaks, then a newline, is split off as it is. */
  lemma SplitLinesCons(first: string, rest: string)
    requires NoBreak(first)
    ensures SplitLines(first + "\n" + rest) == [first] + SplitLines(rest)
  {
    var text := first + "\n" + rest;
    assert text[|first|] == '\n';
    assert forall k :: 0 <= k < |first| ==> text[k] == first[k];
    assert Search.FirstIn(text, LINE_BREAKS, 0) == |first|;
    assert text[..|first|] == first;
    assert text[|first| + 1..] == rest;
  }

  /** Splitting newline-terminated lines gives the lines back. */
  lemma {:induction false} SplitLinesOfTerminated(lines: seq<string>)
    requires forall i :: 0 <= i < |lines| ==> NoBreak(lines[i])
    ensures SplitLines(Terminated(lines)) == lines
    decreases |lines|
  {
    if lines != [] {
      SplitLinesCons(lines[0], Terminated(lines[1..]));
      SplitLinesOfTerminated(lines[1..]);
    }
  }

  /** A snapshot taken while ffmpeg is still writing ends in a partial line:
      that line comes back as the last one. */
  lemma {:induction false} SplitLinesOfPartial(lines: seq<string>, last: string)
    requires forall i :: 0 <= i < |lines| ==> NoBreak(lines[i])
    requires NoBreak(last) && last != []
    ensures SplitLines(Terminated(lines) + last) == lines + [last]
    decreases |lines|
  {
    if lines == [] {
      assert Terminated(lines) + last == last;
      SplitLinesOne(last);
    } else {
      SplitLinesOfPartial(lines[1..], last);
      SplitLinesPartialStep(lines, last);
    }
  }

  /** The inductive step of `SplitLinesOfPartial`: one more complete line in front. */
  lemma SplitLinesPartialStep(lines: seq<string>, last: string)
    requires lines != [] && NoBreak(lines[0])
    requires SplitLines(Terminated(lines[1..]) + last) == lines[1..] + [last]
    ensures SplitLines(Terminated(lines) + last) == lines + [last]
  {
    var text, rest := Terminated(lines) + last, Terminated(lines[1..]) + last;
    assert text == lines[0] + "\n" + rest by {
      TerminatedThen(lines, last);
    }
    assert SplitLines(text) == [lines[0]] + SplitLines(rest) by {
      SplitLinesCons(lines[0], rest);
    }
    ConsSnoc(lines, last);
  }

  lemma ConsSnoc<T>(xs: seq<T>, x: T)
    requires xs != []
    ensures xs + [x] == [xs[0]] + (xs[1..] + [x])
  {
  }

  /** A text without line breaks is one line. */
  lemma SplitLinesOne(line: string)
    requires NoBreak(line) && line != []
    ensures SplitLines(line) == [line]
  {
    assert Search.FirstIn(line, LINE_BREAKS, 0) == |line|;
  }

  lemma TerminatedThen(lines: seq<string>, last: string)
    requires lines != []
    ensures Terminated(lines) + last == lines[0] + "\n" + (Terminated(lines[1..]) + last)
  {
    var first, rest := lines[0] + "\n", Terminated(lines[1..]);
    assert Terminated(lines) == first + rest;
    assert (first + rest) + last == first + (rest + last);
  }

  // ---------------------------------------------------------------------------
  // str.strip and int()
  // ---------------------------------------------------------------------------

  /** The characters `str.strip()` and `int()` treat as white space. */
  const WHITESPACE: set<char> :=
    {' ', '\t', '\n', '\r', '\U{0B}', '\U{0C}', '\U{1C}', '\U{1D}', '\U{1E}', '\U{1F}',
     '\U{85}', '\U{A0}', '\U{1680}', '\U{2000}', '\U{2001}', '\U{2002}', '\U{2003}',
     '\U{2004}', '\U{2005}', '\U{2006}', '\U{2007}', '\U{2008}', '\U{2009}', '\U{200A}',
     '\U{2028}', '\U{2029}', '\U{202F}', '\U{205F}', '\U{3000}'}

  /** The first index at or after `from` that does not hold white space. */
  function SkipSpace(s: string, from: nat): (a: nat)
    requires from <= |s|
    ensures from <= a <= |s| && (a < |s| ==> s[a] !in WHITESPACE)
    ensures forall k :: from <= k < a ==> s[k] in WHITESPACE
    decreases |s| - from
  {
    if from == |s| || s[from] !in WHITESPACE then from else SkipSpace(s, from + 1)
  }

  /** The end of `s[..end]` once its trailing white space is dropped. */
  function TrimEnd(s: string, end: nat): (b: nat)
    requires end <= |s|
    ensures b <= end && (b > 0 ==> s[b - 1] !in WHITESPACE)
    ensures forall k :: b <= k < end ==> s[k] in WHITESPACE
    decreases end
  {
    if end == 0 || s[end - 1] !in WHITESPACE then end else TrimEnd(s, end - 1)
  }

  /** `s.strip()`: `s` without its leading and trailing white space. */
  function Strip(s: string): (r: string)
    ensures r != [] ==> r[0] !in WHITESPACE && r[|r| - 1] !in WHITESPACE
  {
    var a := SkipSpace(s, 0);
    var b := TrimEnd(s, |s|);
    var end := if b < a then a else b;
    s[a..end]
  }

  /** What `Strip` removes is white space at either end and nothing else. */
  lemma StripRemovesSpaceOnly(s: string)
    ensures exists a, b :: 0 <= a <= b <= |s| && Strip(s) == s[a..b] &&
                           (forall k :: 0 <= k < a ==> s[k] in WHITESPACE) &&
                           (forall k :: b <= k < |s| ==> s[k] in WHITESPACE)
  {
    var a := SkipSpace(s, 0);
    var b := TrimEnd(s, |s|);
    var end := if b < a then a else b;
    assert Strip(s) == s[a..end];
    assert forall k :: 0 <= k < a ==> s[k] in WHITESPACE;
    assert forall k :: end <= k < |s| ==> s[k] in WHITESPACE;
  }

  function DigitValue(c: char): nat
    requires Search.IsDigit(c)
  {
    (c as int) - ('0' as int)
  }

  /** A decimal literal as `int()` reads one: digits, with single underscores
      allowed between two digits. */
  predicate IsDecimal(s: string) {
    |s| > 0 && forall i :: 0 <= i < |s| ==> DecimalCharAt(s, i)
  }

  /** Position `i` holds a digit, or an underscore between two digits. */
  predicate DecimalCharAt(s: string, i: nat)
    requires i < |s|
  {
    Search.IsDigit(s[i]) || (s[i] == '_' && 0 < i < |s| - 1 && Search.IsDigit(s[i - 1]) && Search.IsDigit(s[i + 1]))
  }

  /** The value of a decimal literal; underscores carry no value. */
  function DecimalValue(s: string): nat
    decreases |s|
  {
    if s == [] then 0
    else if Search.IsDigit(s[|s| - 1]) then 10 * DecimalValue(s[..|s| - 1]) + DigitValue(s[|s| - 1])
    else DecimalValue(s[..|s| - 1])
  }

  /** An optionally signed decimal literal with no surrounding white space. */
  function ParseLiteral(t: string): Option<int> {
    if |t| > 0 && (t[0] == '-' || t[0] == '+') then
      if IsDecimal(t[1..]) then
        var v: int := DecimalValue(t[1..]);
        Some(if t[0] == '-' then -v else v)
      else None
    else if IsDecimal(t) then Some(DecimalValue(t))
    else None
  }

  /** `int(s)` with base 10: `None` where Python raises `ValueError`. */
  function ParseInt(s: string): (r: Option<int>)
    // Accepted: a decimal literal, optionally signed, between white space.
    ensures var t := Strip(s);
            r.Some? <==> IsDecimal(t) || (|t| > 0 && (t[0] == '-' || t[0] == '+') && IsDecimal(t[1..]))
    ensures r.Some? && r.value < 0 ==> Strip(s)[0] == '-'
  {
    var t := Strip(s);
    assert IsDecimal(t) ==> DecimalCharAt(t, 0) && Search.IsDigit(t[0]);
    ParseLiteral(t)
  }

  /** The decimal digits of `n`, as ffmpeg prints an integer. */
  function ShowNat(n: nat): (s: string)
    ensures |s| > 0 && Search.AllDigits(s)
    decreases n
  {
    var d := ['0' + (n % 10) as char];
    if n < 10 then d else ShowNat(n / 10) + d
  }

  function ShowInt(n: int): string {
    if n < 0 then "-" + ShowNat(-n) else ShowNat(n)
  }

  lemma {:induction false} DecimalValueOfShowNat(n: nat)
    ensures DecimalValue(ShowNat(n)) == n
    decreases n
  {
    var s := ShowNat(n);
    if n >= 10 {
      DecimalValueOfShowNat(n / 10);
      assert s[..|s| - 1] == ShowNat(n / 10);
    }
  }


  lemma StripUnchanged(s: string)
    requires |s| > 0 && s[0] !in WHITESPACE && s[|s| - 1] !in WHITESPACE
    ensures Strip(s) == s
  {
  }

  lemma DigitIsNotSpace(c: char)
    requires Search.IsDigit(c)
    ensures c !in WHITESPACE
  {
  }

  lemma ParseIntOfDigits(digits: string)
    requires |digits| > 0 && Search.AllDigits(digits)
    ensures ParseInt(digits) == Some(DecimalValue(digits))
  {
    DigitIsNotSpace(digits[0]);
    DigitIsNotSpace(digits[|digits| - 1]);
    StripUnchanged(digits);
    assert IsDecimal(digits);
  }

  /** `int()` reads `-` and digits as the negated value of the digits. */
  lemma ParseIntOfNegative(t: string, digits: string)
    requires |t| > 1 && t[0] == '-' && t[1..] == digits && Search.AllDigits(digits)
    ensures ParseInt(t) == Some(-(DecimalValue(digits) as int))
  {
    assert t[|t| - 1] == digits[|digits| - 1];
    DigitIsNotSpace(t[|t| - 1]);
    StripUnchanged(t);
    assert IsDecimal(digits);
  }

  lemma MinusPrefix(digits: string)
    ensures ("-" + digits)[0] == '-' && ("-" + digits)[1..] == digits
  {
  }

  /** `int()` reads back what an integer prints as. */
  lemma ParseIntOfShowInt(n: int)
    ensures ParseInt(ShowInt(n)) == Some(n)
  {
    var t := ShowInt(n);
    if n < 0 {
      var digits := ShowNat(-n);
      assert t == "-" + digits;
      MinusPrefix(digits);
      DecimalValueOfShowNat(-n);
      ParseIntOfNegative(t, digits);
      assert ParseInt(t) == Some(n);
    } else {
      assert t == ShowNat(n);
      DecimalValueOfShowNat(n);
      ParseIntOfDigits(t);
      assert ParseInt(t) == Some(n);
    }
  }

  // ---------------------------------------------------------------------------
  // The out_time_ms scan
  // ---------------------------------------------------------------------------

  const OUT_TIME_KEY := "out_time_ms"

  /** `line.split('=')[1]`: the text between the first and the second `=`
      (or the end of the line); `None` where Python raises `IndexError`. */
  function SecondField(line: string): (r: Option<string>)
    ensures r.Some? <==> '=' in line
    ensures r.Some? ==> '=' !in r.value
  {
    var k := Search.FirstIn(line, {'='}, 0);
    if k == |line| then None
    else
      var rest := line[k + 1..];
      var e := Search.FirstIn(rest, {'='}, 0);
      Some(rest[..e])
  }

  /** In a line `a=b`, or `a=b=...`, where neither `a` nor `b` holds `=`, the
      second field is `b`. */
  lemma SecondFieldOf(a: string, b: string, c: string)
    requires '=' !in a && '=' !in b && (c == [] || c[0] == '=')
    ensures SecondField(a + "=" + b + c) == Some(b)
  {
    var line := a + "=" + b + c;
    assert line[|a|] == '=';
    assert forall k :: 0 <= k < |a| ==> line[k] == a[k];
    assert Search.FirstIn(line, {'='}, 0) == |a|;
    var rest := line[|a| + 1..];
    assert rest == b + c;
    assert forall k :: 0 <= k < |b| ==> rest[k] == b[k];
    assert c != [] ==> rest[|b|] == '=';
    assert Search.FirstIn(rest, {'='}, 0) == |b|;
    assert rest[..|b|] == b;
  }

  /** The value one line contributes, `int(line.split('=')[1].strip())` for a
      line that mentions `out_time_ms`; `None` for a line that does not, or
      whose value raises and is skipped. */
  function LineOutTime(line: string): Option<int> {
    if Search.Contains(line, OUT_TIME_KEY) then
      match SecondField(line)
      case None => None
      case Some(field) => ParseInt(Strip(field))
    else None
  }

  /** The line ffmpeg writes for an output time of `n` microseconds. */
  function OutTimeLine(n: int): string {
    OUT_TIME_KEY + "=" + ShowInt(n)
  }

  /** The printed form of an integer is a sign and digits: no `=`, no line
      break, and no white space at either end. */
  lemma ShowIntShape(n: int)
    ensures var t := ShowInt(n);
            && |t| > 0 && '=' !in t && NoBreak(t)
            && t[0] !in WHITESPACE && t[|t| - 1] !in WHITESPACE
  {
    var t := ShowInt(n);
    var digits := ShowNat(if n < 0 then -n else n);
    assert t == (if n < 0 then "-" else "") + digits;
    forall k | 0 <= k < |t| ensures t[k] != '=' && t[k] !in LINE_BREAKS && t[k] !in WHITESPACE {
      assert t[k] == '-' || Search.IsDigit(t[k]);
      SignOrDigitIsPlain(t[k]);
    }
  }

  /** A sign or a digit is neither `=`, nor a line break, nor white space. */
  lemma SignOrDigitIsPlain(c: char)
    requires c == '-' || Search.IsDigit(c)
    ensures c != '=' && c !in LINE_BREAKS && c !in WHITESPACE
  {
  }

  /** ffmpeg's `out_time_ms=<n>` line yields `n`. */
  lemma LineOutTimeOfReport(n: int)
    ensures LineOutTime(OutTimeLine(n)) == Some(n)
  {
    var t := ShowInt(n);
    var line := OutTimeLine(n);
    ShowIntShape(n);
    assert line[..|OUT_TIME_KEY|] == OUT_TIME_KEY;
    assert Search.OccursAt(line, OUT_TIME_KEY, 0);
    assert line == OUT_TIME_KEY + "=" + t + [];
    SecondFieldOf(OUT_TIME_KEY, t, []);
    StripUnchanged(t);
    ParseIntOfShowInt(n);
  }

  /** A line without `out_time_ms` is passed over, and so is one without
      `=`, where the source's `IndexError` is caught. */
  lemma LineOutTimeSkips(line: string)
    ensures !Search.Contains(line, OUT_TIME_KEY) ==> LineOutTime(line).None?
    ensures '=' !in line ==> LineOutTime(line).None?
  {
  }

  /** What each line contributes, in order. */
  function LineValues(lines: seq<string>): (vs: seq<Option<int>>)
    ensures |vs| == |lines| && forall i :: 0 <= i < |lines| ==> vs[i] == LineOutTime(lines[i])
  {
    seq(|lines|, i requires 0 <= i < |lines| => LineOutTime(lines[i]))
  }

  /** Entry `i` is the last one that holds a value. */
  ghost predicate IsLastValue(vs: seq<Option<int>>, i: nat) {
    i < |vs| && vs[i].Some? && forall j :: i < j < |vs| ==> vs[j].None?
  }

  /** The last value in `vs`, and 0 when there is none. */
  function LastValue(vs: seq<Option<int>>): (t: int)
    ensures (forall i :: 0 <= i < |vs| ==> vs[i].None?) ==> t == 0
    ensures forall i: nat :: IsLastValue(vs, i) ==> t == vs[i].value
    decreases |vs|
  {
    if vs == [] then 0
    else
      var init := vs[..|vs| - 1];
      assert forall i :: 0 <= i < |init| ==> init[i] == vs[i];
      match vs[|vs| - 1]
      case Some(v) => v
      case None => LastValue(init)
  }

  /** The elapsed output time, in microseconds, that one poll of the progress
      file reads: the value of its last line that yields one, and 0 when no
      line does. */
  function OutTime(text: string): int
  {
    LastValue(LineValues(SplitLines(text)))
  }

  /** The lines of a snapshot: complete lines, then a partial one if any. */
  lemma SplitSnapshot(lines: seq<string>, partial: string)
    requires forall i :: 0 <= i < |lines| ==> NoBreak(lines[i])
    requires NoBreak(partial)
    ensures SplitLines(Terminated(lines) + partial) == if partial == [] then lines else lines + [partial]
  {
    if partial == [] {
      assert Terminated(lines) + partial == Terminated(lines);
      SplitLinesOfTerminated(lines);
    } else {
      SplitLinesOfPartial(lines, partial);
    }
  }

  /** A snapshot whose last report is `out_time_ms=<n>`, followed only by
      lines without a value and possibly a partial line without one, reads
      as `n`. */
  lemma OutTimeOfLastReport(before: seq<string>, n: int, after: seq<string>, partial: string)
    requires forall i :: 0 <= i < |before| ==> NoBreak(before[i])
    requires forall i :: 0 <= i < |after| ==> NoBreak(after[i]) && LineOutTime(after[i]).None?
    requires NoBreak(partial) && LineOutTime(partial).None?
    ensures OutTime(Terminated(before + [OutTimeLine(n)] + after) + partial) == n
  {
    var lines := before + [OutTimeLine(n)] + after;
    ReportLinesNoBreak(before, n, after, lines);
    SplitSnapshot(lines, partial);
    var all := if partial == [] then lines else lines + [partial];
    NothingAfterReport(before, n, after, partial, all);
    LastReportIsLast(all, |before|, n);
  }

  lemma ReportLinesNoBreak(before: seq<string>, n: int, after: seq<string>, lines: seq<string>)
    requires forall i :: 0 <= i < |before| ==> NoBreak(before[i])
    requires forall i :: 0 <= i < |after| ==> NoBreak(after[i])
    requires lines == before + [OutTimeLine(n)] + after
    ensures forall i :: 0 <= i < |lines| ==> NoBreak(lines[i])
  {
    var k := |before|;
    ShowIntShape(n);
    forall i | 0 <= i < |lines| ensures NoBreak(lines[i]) {
      if i < k {
        assert lines[i] == before[i];
      } else if i > k {
        assert lines[i] == after[i - k - 1];
      } else {
        assert lines[i] == OUT_TIME_KEY + "=" + ShowInt(n);
      }
    }
  }

  lemma NothingAfterReport(before: seq<string>, n: int, after: seq<string>, partial: string, all: seq<string>)
    requires forall i :: 0 <= i < |after| ==> LineOutTime(after[i]).None?
    requires LineOutTime(partial).None?
    requires all == (if partial == [] then before + [OutTimeLine(n)] + after
                     else before + [OutTimeLine(n)] + after + [partial])
    ensures |before| < |all| && all[|before|] == OutTimeLine(n)
    ensures forall j :: |before| < j < |all| ==> LineOutTime(all[j]).None?
  {
    var tail := if partial == [] then after else after + [partial];
    assert all == before + [OutTimeLine(n)] + tail;
    forall i | 0 <= i < |tail| ensures LineOutTime(tail[i]).None? {
      if i < |after| {
        assert tail[i] == after[i];
      }
    }
    ValuesAfter(before, OutTimeLine(n), tail, all);
  }

  lemma ValuesAfter(before: seq<string>, line: string, tail: seq<string>, all: seq<string>)
    requires forall i :: 0 <= i < |tail| ==> LineOutTime(tail[i]).None?
    requires all == before + [line] + tail
    ensures |before| < |all| && all[|before|] == line
    ensures forall j :: |before| < j < |all| ==> LineOutTime(all[j]).None?
  {
    forall j | |before| < j < |all| ensures LineOutTime(all[j]).None? {
      assert all[j] == tail[j - |before| - 1];
    }
  }

  /** The helper behind `OutTimeOfLastReport`: a report at `k` with no value
      after it is the one `OutTime` reads. */
  lemma LastReportIsLast(all: seq<string>, k: nat, n: int)
    requires k < |all| && all[k] == OutTimeLine(n)
    requires forall j :: k < j < |all| ==> LineOutTime(all[j]).None?
    ensures LastValue(LineValues(all)) == n
  {
    LineOutTimeOfReport(n);
    var vs := LineValues(all);
    assert vs[k] == Some(n);
    assert IsLastValue(vs, k);
  }

  /** The parse loop of the progress monitor: every line that mentions
      `out_time_ms` and parses overwrites the previous value. */
  method ParseOutTime(text: string) returns (outTimeUs: int)
    ensures outTimeUs == OutTime(text)
  {
    var lines := SplitLines(text);
    ghost var vs := LineValues(lines);
    outTimeUs := 0;
    for i := 0 to |lines|
      invariant outTimeUs == LastValue(vs[..i])
    {
      assert vs[..i + 1][..i] == vs[..i];
      match LineOutTime(lines[i]) {
        case Some(v) => outTimeUs := v;
        case None =>
      }
    }
    assert vs[..|lines|] == vs;
  }
}
