/** src/audio_recorder.py: the chunk loop of `record_audio` with its
    progress bar, and the countdown of `record_with_countdown`. Microphone
    reads are an input; the progress lines are returned instead of printed. */
module AudioRecorder {
  import opened PyStr
  import opened Capture

  /** `bar_len`. */
  const BAR_LEN: nat := 30

  const FULL_CELL: char := '\U{2588}'
  const EMPTY_CELL: char := '\U{2591}'

  /** The integer part of `bar_len * i / total_chunks`. Within a recording
      the bar is never full: for chunk `i < total_chunks`, `filled` lies in
      [0, 29]. */
  function Filled(i: nat, totalChunks: nat): (filled: nat)
    requires totalChunks > 0
    ensures i < totalChunks ==> filled <= BAR_LEN - 1
    ensures i <= totalChunks ==> filled <= BAR_LEN
  {
    assert i < totalChunks ==> BAR_LEN * i < BAR_LEN * totalChunks;
    assert i <= totalChunks ==> BAR_LEN * i <= BAR_LEN * totalChunks;
    BAR_LEN * i / totalChunks
  }

  /** `"█" * filled + "░" * (bar_len - filled)`. */
  function Bar(filled: nat): string
    requires filled <= BAR_LEN
  {
    Repeat(FULL_CELL, filled) + Repeat(EMPTY_CELL, BAR_LEN - filled)
  }

  /** A bar has 30 cells, the first `filled` of them full and the rest empty. */
  lemma BarShape(filled: nat)
    requires filled <= BAR_LEN
    ensures |Bar(filled)| == BAR_LEN
    ensures forall k :: 0 <= k < BAR_LEN ==> (Bar(filled)[k] == FULL_CELL <==> k < filled)
    ensures forall k :: 0 <= k < BAR_LEN ==> (Bar(filled)[k] == EMPTY_CELL <==> filled <= k)
  {
    var b := Bar(filled);
    forall k | 0 <= k < BAR_LEN
      ensures b[k] == (if k < filled then FULL_CELL else EMPTY_CELL)
    {
      if k >= filled {
        assert b[k] == Repeat(EMPTY_CELL, BAR_LEN - filled)[k - filled];
      }
    }
  }

  /** A progress line: the bar after chunk `chunk` is read, or the final full bar. */
  datatype Progress = Partial(chunk: nat, bar: string) | Complete(bar: string)

  /** The recording loop of `record_audio`: `read(k)` is what the k-th read
      returns. With progress shown, the bar is drawn after chunks 0, 10,
      20, ... and a full bar closes the recording. */
  method RecordAudio(totalChunks: nat, showProgress: bool, read: nat -> Chunk)
    returns (frames: seq<Chunk>, progress: seq<Progress>)
    ensures |frames| == totalChunks
    ensures forall k :: 0 <= k < totalChunks ==> frames[k] == read(k)
    ensures !showProgress ==> progress == []
    ensures showProgress ==> |progress| == (totalChunks + 9) / 10 + 1
    ensures showProgress ==> forall j :: 0 <= j < |progress| - 1 ==>
      10 * j < totalChunks && progress[j] == Partial(10 * j, Bar(Filled(10 * j, totalChunks)))
    ensures showProgress ==> progress[|progress| - 1] == Complete(Repeat(FULL_CELL, BAR_LEN))
  {
    frames := [];
    progress := [];
    for i := 0 to totalChunks
      invariant |frames| == i
      invariant forall k :: 0 <= k < i ==> frames[k] == read(k)
      invariant !showProgress ==> progress == []
      invariant showProgress ==> 10 * |progress| >= i && 10 * |progress| < i + 10
      invariant showProgress ==> forall j :: 0 <= j < |progress| ==>
        10 * j < totalChunks && progress[j] == Partial(10 * j, Bar(Filled(10 * j, totalChunks)))
    {
      frames := frames + [read(i)];
      if showProgress {
        TenthStep(i, |progress|);
      }
      if showProgress && i % 10 == 0 {
        var filled := Filled(i, totalChunks);
        progress := progress + [Partial(i, Bar(filled))];
      }
    }
    if showProgress {
      CeilingTenth(totalChunks, |progress|);
      progress := progress + [Complete(Repeat(FULL_CELL, BAR_LEN))];
    }
  }

  /** Chunk `i` gets a bar exactly when the bars so far cover `i` chunks. */
  lemma TenthStep(i: nat, m: nat)
    requires 10 * m >= i && 10 * m < i + 10
    ensures i % 10 == 0 <==> 10 * m == i
  {
  }

  lemma CeilingTenth(n: nat, m: nat)
    requires 10 * m >= n && 10 * m < n + 10
    ensures m == (n + 9) / 10
  {
  }

  /** The header line of `record_with_countdown`. */
  function CountdownHeader(countdown: int): string
  {
    "\nRecording will start in " + IntToString(countdown) + " seconds..."
  }

  /** The countdown of `record_with_countdown`: `range(countdown, 0, -1)`,
      and the lines it prints up to and including `   🔴 GO!`: the header,
      one line per tick, then GO. */
  method Countdown(countdown: int) returns (ticks: seq<int>, lines: seq<string>)
    ensures |ticks| == (if countdown > 0 then countdown else 0)
    ensures forall k :: 0 <= k < |ticks| ==> ticks[k] == countdown - k && ticks[k] >= 1
    ensures forall k, l :: 0 <= k < l < |ticks| ==> ticks[k] > ticks[l]
    ensures |lines| == |ticks| + 2
    ensures lines[0] == CountdownHeader(countdown)
    ensures forall k :: 0 <= k < |ticks| ==> lines[k + 1] == "   " + IntToString(ticks[k]) + "..."
    ensures lines[|ticks| + 1] == "   \U{1F534} GO!"
  {
    ticks := [];
    lines := [CountdownHeader(countdown)];
    var i := countdown;
    while i > 0
      invariant i <= countdown || (countdown <= 0 && i == countdown)
      invariant i >= 0 || i == countdown
      invariant |ticks| == (if countdown > 0 then countdown - (if i > 0 then i else 0) else 0)
      invariant forall k :: 0 <= k < |ticks| ==> ticks[k] == countdown - k && ticks[k] >= 1
      invariant |lines| == |ticks| + 1 && lines[0] == CountdownHeader(countdown)
      invariant forall k :: 0 <= k < |ticks| ==> lines[k + 1] == "   " + IntToString(ticks[k]) + "..."
      decreases i
    {
      ticks := ticks + [i];
      lines := lines + ["   " + IntToString(i) + "..."];
      i := i - 1;
    }
    lines := lines + ["   \U{1F534} GO!"];
  }
}
