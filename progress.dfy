/** The progress monitor `download_and_mux` runs beside ffmpeg: it waits for
    the progress file to appear, then reads it over and over, moving the
    progress bar forward whenever the percentage of the stream written so far
    grows, until the file reports `progress=end` or disappears.

    Each read of the file is an observation (`Poll`) supplied from outside;
    the bar is represented by its count `bar.n`. */
module Progress {
  import Search
  import ProgressFile

  const END_MARKER := "progress=end"

  datatype Phase =
    | Awaiting   // the progress file does not exist yet
    | Polling    // the file has been seen and is read on every round
    | Completed  // the file reported the end of the stream
    | Vanished   // the file disappeared while being read

  /** What one attempt to read the progress file observes. */
  datatype Poll =
    | Missing                   // the file does not exist (FileNotFoundError)
    | Unreadable                // any other error: logged, then retried
    | Text(contents: string)    // the file's text

  /** The monitor's state: its phase, `last_progress` and the bar's count. */
  datatype Monitor = Monitor(phase: Phase, lastProgress: int, barCount: int)

  const START := Monitor(Awaiting, 0, 0)

  predicate Stopped(phase: Phase) { phase == Completed || phase == Vanished }

  /** The percentage `min(int(out_time / total_duration * 100), 100)`. */
  function Percent(outUs: int, totalUs: int): (p: int)
    requires outUs >= 0 && totalUs > 0
    ensures 0 <= p <= 100
    ensures p == 100 <==> outUs >= totalUs
    ensures p < 100 ==> p * totalUs <= outUs * 100 < (p + 1) * totalUs
  {
    var q := (outUs * 100) / totalUs;
    RatioBounds(outUs, totalUs);
    if q < 100 then q else 100
  }

  /** The rounded-down ratio reaches 100 exactly when the output reaches the total. */
  lemma RatioBounds(outUs: int, totalUs: int)
    requires outUs >= 0 && totalUs > 0
    ensures var q := (outUs * 100) / totalUs;
            0 <= q && q * totalUs <= outUs * 100 < (q + 1) * totalUs && (q >= 100 <==> outUs >= totalUs)
  {
    var a := outUs * 100;
    var q, r := a / totalUs, a % totalUs;
    assert a == q * totalUs + r && 0 <= r < totalUs;
    assert (q + 1) * totalUs == q * totalUs + totalUs;
    if q < 0 {
      MulMonotone(q, -1, totalUs);
    }
    if outUs >= totalUs {
      MulMonotone(totalUs, outUs, 100);
      MulCancel(100, q + 1, totalUs);
    } else {
      MulMonotone(outUs + 1, totalUs, 100);
      MulCancel(q, 100, totalUs);
    }
  }

  lemma MulCancel(a: int, b: int, c: int)
    requires c > 0 && a * c < b * c
    ensures a < b
  {
  }

  /** More output never means a smaller percentage. */
  lemma PercentMonotone(out1: int, out2: int, totalUs: int)
    requires 0 <= out1 <= out2 && totalUs > 0
    ensures Percent(out1, totalUs) <= Percent(out2, totalUs)
  {
    var p1, p2 := Percent(out1, totalUs), Percent(out2, totalUs);
    if p1 == 100 {
      assert out2 >= totalUs;
    } else if p2 < p1 {
      assert out2 * 100 < (p2 + 1) * totalUs;
      MulMonotone(p2 + 1, p1, totalUs);
      MulMonotone(out1, out2, 100);
      assert false;
    }
  }

  lemma MulMonotone(a: int, b: int, c: int)
    requires a <= b && c > 0
    ensures a * c <= b * c
  {
  }

  function Max(a: int, b: int): int { if a < b then b else a }

  /** The bar only ever moves by `progress - last_progress`, so its count
      equals `last_progress` until the end is reported, when it is filled. */
  predicate Inv(m: Monitor) {
    && 0 <= m.lastProgress <= 100
    && (if m.phase == Completed then m.barCount == 100 else m.barCount == m.lastProgress)
  }

  /** One round of the monitor on one observation of the progress file. */
  function Step(m: Monitor, totalUs: int, p: Poll): (m': Monitor)
    // A stopped monitor stays as it is.
    ensures Stopped(m.phase) ==> m' == m
    // The bookkeeping holds, and neither the percentage nor the bar goes back.
    ensures Inv(m) ==> Inv(m') && m.lastProgress <= m'.lastProgress && m.barCount <= m'.barCount
    // While waiting for the file to appear nothing else happens; once it has
    // been seen, its disappearance stops the monitor.
    ensures !Stopped(m.phase) && p.Missing? ==>
              m' == m.(phase := if m.phase == Awaiting then Awaiting else Vanished)
    // A read error is retried with nothing changed.
    ensures !Stopped(m.phase) && p.Unreadable? ==> m' == m.(phase := Polling)
    // The end marker fills the bar and stops the monitor.
    ensures !Stopped(m.phase) && p.Text? && Search.Contains(p.contents, END_MARKER) ==>
              m' == m.(phase := Completed, barCount := 100)
    // Otherwise the percentage becomes the larger of the old one and the one
    // the file reports, when it reports a positive time against a positive total.
    ensures !Stopped(m.phase) && p.Text? && !Search.Contains(p.contents, END_MARKER) ==>
              var outUs := ProgressFile.OutTime(p.contents);
              m'.phase == Polling &&
              m'.lastProgress == (if outUs > 0 && totalUs > 0 then Max(m.lastProgress, Percent(outUs, totalUs))
                                  else m.lastProgress) &&
              m'.barCount - m.barCount == m'.lastProgress - m.lastProgress
  {
    if Stopped(m.phase) then m
    else
      match p
      case Missing => if m.phase == Awaiting then m else m.(phase := Vanished)
      case Unreadable => m.(phase := Polling)
      case Text(text) =>
        if Search.Contains(text, END_MARKER) then
          m.(phase := Completed, barCount := m.barCount + (100 - m.barCount))
        else
          var outUs := ProgressFile.OutTime(text);
          if outUs > 0 && totalUs > 0 && Percent(outUs, totalUs) > m.lastProgress then
            var progress := Percent(outUs, totalUs);
            Monitor(Polling, progress, m.barCount + (progress - m.lastProgress))
          else
            m.(phase := Polling)
  }

  /** The monitor after a series of observations. */
  function Run(m: Monitor, totalUs: int, polls: seq<Poll>): Monitor
    decreases |polls|
  {
    if polls == [] then m else Run(Step(m, totalUs, polls[0]), totalUs, polls[1..])
  }

  lemma {:induction false} RunKeepsInv(m: Monitor, totalUs: int, polls: seq<Poll>)
    requires Inv(m)
    ensures Inv(Run(m, totalUs, polls))
    ensures m.lastProgress <= Run(m, totalUs, polls).lastProgress
    ensures m.barCount <= Run(m, totalUs, polls).barCount
    decreases |polls|
  {
    if polls != [] {
      RunKeepsInv(Step(m, totalUs, polls[0]), totalUs, polls[1..]);
    }
  }

  lemma {:induction false} RunStopped(m: Monitor, totalUs: int, polls: seq<Poll>)
    requires Stopped(m.phase)
    ensures Run(m, totalUs, polls) == m
    decreases |polls|
  {
    if polls != [] {
      RunStopped(Step(m, totalUs, polls[0]), totalUs, polls[1..]);
    }
  }

  lemma {:induction false} RunAppend(m: Monitor, totalUs: int, a: seq<Poll>, b: seq<Poll>)
    ensures Run(m, totalUs, a + b) == Run(Run(m, totalUs, a), totalUs, b)
    decreases |a|
  {
    if a == [] {
      assert a + b == b;
    } else {
      assert (a + b)[0] == a[0] && (a + b)[1..] == a[1..] + b;
      RunAppend(Step(m, totalUs, a[0]), totalUs, a[1..], b);
    }
  }

  /** The percentage one observation reports: that of a read without the end
      marker, with a positive time against a positive total; 0 otherwise. */
  function Reported(totalUs: int, p: Poll): (pct: int)
    ensures 0 <= pct <= 100
  {
    if p.Text? && !Search.Contains(p.contents, END_MARKER) then
      var outUs := ProgressFile.OutTime(p.contents);
      if outUs > 0 && totalUs > 0 then Percent(outUs, totalUs) else 0
    else 0
  }

  /** The largest percentage reported by a series of observations, 0 if none. */
  function MaxReported(totalUs: int, polls: seq<Poll>): (pct: int)
    ensures 0 <= pct <= 100
    decreases |polls|
  {
    if polls == [] then 0 else Max(Reported(totalUs, polls[0]), MaxReported(totalUs, polls[1..]))
  }

  /** An observation that neither stops the monitor nor ends the stream. */
  predicate KeepsPolling(p: Poll) {
    p.Unreadable? || (p.Text? && !Search.Contains(p.contents, END_MARKER))
  }

  /** While the file is read and the end is not reported, `last_progress` is
      the largest percentage seen so far: later, smaller readings never pull
      the bar back. */
  lemma {:induction false} LastProgressIsMaxReported(m: Monitor, totalUs: int, polls: seq<Poll>)
    requires !Stopped(m.phase) && m.lastProgress >= 0
    requires forall i :: 0 <= i < |polls| ==> KeepsPolling(polls[i])
    ensures Run(m, totalUs, polls).lastProgress == Max(m.lastProgress, MaxReported(totalUs, polls))
    ensures polls != [] ==> Run(m, totalUs, polls).phase == Polling
    decreases |polls|
  {
    if polls != [] {
      var next := Step(m, totalUs, polls[0]);
      assert KeepsPolling(polls[0]);
      assert next.lastProgress == Max(m.lastProgress, Reported(totalUs, polls[0]));
      LastProgressIsMaxReported(next, totalUs, polls[1..]);
    }
  }

  /** Once the file reports the end, the bar is full for good, whatever is
      observed afterwards. */
  lemma EndMarkerFillsBar(m: Monitor, totalUs: int, before: seq<Poll>, text: string, after: seq<Poll>)
    requires Inv(m) && Search.Contains(text, END_MARKER)
    requires !Stopped(Run(m, totalUs, before).phase)
    ensures var final := Run(m, totalUs, before + [Text(text)] + after);
            final.phase == Completed && final.barCount == 100 && Inv(final)
  {
    var mid := Run(m, totalUs, before);
    RunKeepsInv(m, totalUs, before);
    RunAppend(m, totalUs, before, [Text(text)]);
    RunAppend(m, totalUs, before + [Text(text)], after);
    var done := Step(mid, totalUs, Text(text));
    assert Run(mid, totalUs, [Text(text)]) == done by {
      assert [Text(text)][1..] == [];
    }
    RunStopped(done, totalUs, after);
  }

  /** As long as the progress file never appears (ffmpeg failed before
      creating it, say), the monitor keeps waiting and never stops. */
  lemma {:induction false} WaitsWhileMissing(m: Monitor, totalUs: int, polls: seq<Poll>)
    requires m.phase == Awaiting
    requires forall i :: 0 <= i < |polls| ==> polls[i] == Missing
    ensures Run(m, totalUs, polls) == m
    decreases |polls|
  {
    if polls != [] {
      assert polls[0] == Missing;
      WaitsWhileMissing(Step(m, totalUs, polls[0]), totalUs, polls[1..]);
    }
  }

  /** Starting from scratch, the bar never passes 100, and it shows
      `last_progress` until the end is reported, when it shows 100. */
  lemma BarBounded(totalUs: int, polls: seq<Poll>)
    ensures var m := Run(START, totalUs, polls);
            0 <= m.barCount <= 100 && m.barCount == (if m.phase == Completed then 100 else m.lastProgress)
  {
    RunKeepsInv(START, totalUs, polls);
  }

  /** The monitor as `download_and_mux` runs it: `last_progress` and the bar
      are updated in place by each round. */
  class ProgressMonitor {
    const totalUs: int
    var phase: Phase
    var lastProgress: int
    var barCount: int

    function State(): Monitor
      reads this
    {
      Monitor(phase, lastProgress, barCount)
    }

    predicate Valid()
      reads this
    {
      Inv(State())
    }

    constructor (totalUs: int)
      ensures this.totalUs == totalUs && State() == START && Valid()
    {
      this.totalUs := totalUs;
      phase := Awaiting;
      lastProgress := 0;
      barCount := 0;
    }

    /** One round on one observation; `stop` says the loop has ended. */
    method Poll(p: Poll) returns (stop: bool)
      requires Valid()
      modifies this
      ensures Valid()
      ensures State() == Step(old(State()), totalUs, p)
      ensures stop <==> Stopped(phase)
    {
      if !Stopped(phase) {
        match p {
          case Missing =>
            if phase == Polling {
              phase := Vanished;
            }
          case Unreadable =>
            phase := Polling;
          case Text(text) =>
            Read(text);
        }
      }
      stop := Stopped(phase);
    }

    /** One round that read the file's text: the end marker fills the bar,
        otherwise a larger percentage moves it forward. */
    method Read(text: string)
      requires Valid() && !Stopped(phase)
      modifies this
      ensures Valid()
      ensures State() == Step(old(State()), totalUs, Text(text))
    {
      phase := Polling;
      if Search.Contains(text, END_MARKER) {
        barCount := barCount + (100 - barCount);
        phase := Completed;
      } else {
        var outUs := ProgressFile.ParseOutTime(text);
        if outUs > 0 && totalUs > 0 {
          var progress := Percent(outUs, totalUs);
          if progress > lastProgress {
            barCount := barCount + (progress - lastProgress);
            lastProgress := progress;
          }
        }
      }
    }

    /** Rounds on the observations in turn until the monitor stops; `consumed`
        is how many were used. */
    method Watch(polls: seq<Poll>) returns (consumed: nat)
      requires Valid()
      modifies this
      ensures Valid()
      ensures State() == Run(old(State()), totalUs, polls)
      ensures consumed <= |polls| && (consumed < |polls| ==> Stopped(phase))
    {
      consumed := 0;
      var stop := Stopped(phase);
      while consumed < |polls| && !stop
        invariant consumed <= |polls| && Valid()
        invariant stop <==> Stopped(phase)
        invariant Run(old(State()), totalUs, polls) == Run(State(), totalUs, polls[consumed..])
        decreases |polls| - consumed
      {
        assert polls[consumed..][1..] == polls[consumed + 1..];
        stop := Poll(polls[consumed]);
        consumed := consumed + 1;
      }
      if consumed < |polls| {
        RunStopped(State(), totalUs, polls[consumed..]);
      } else {
        assert polls[consumed..] == [];
      }
    }
  }
}
