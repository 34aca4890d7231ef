/**
 * The single running typing test: a countdown driven by one tick per second,
 * the user's input, the characters credited to the current second and the
 * series of per-second speed samples. `start` resets it, every tick samples
 * the second that ended, and the tick that brings the countdown to zero stops
 * the timer and delivers the result.
 *
 * The wall clock is a parameter (`nowMs`, milliseconds since the epoch) and the
 * interval timer is the flag `timerActive`; the ticks it would fire are calls
 * of `Tick`. The values handed to the per-second callback are logged in the
 * ghost `tickReports`, and the result handed to the completion callback is
 * what `Tick` returns.
 */
module TestSession {
  import opened Wrappers
  import opened Metrics

  /** Where a session stands: never started or aborted, counting down, or done. */
  datatype Phase = Idle | Running | Finished

  /** The remaining seconds reported after `ticks` ticks: the full duration at
      start, then one less per tick. */
  function Countdown(duration: int, ticks: nat): seq<int> {
    if ticks == 0 then [duration] else Countdown(duration, ticks - 1) + [duration - ticks]
  }

  lemma CountdownStep(duration: int, ticks: nat)
    ensures Countdown(duration, ticks + 1) == Countdown(duration, ticks) + [duration - (ticks + 1)]
  {
  }

  /** Per-second samples are non-negative multiples of 12 (characters times 12). */
  ghost predicate Samples(wpmData: seq<int>) {
    forall k :: 0 <= k < |wpmData| ==> 0 <= wpmData[k] && wpmData[k] % 12 == 0
  }

  lemma SamplesAppend(wpmData: seq<int>, chars: nat)
    requires Samples(wpmData)
    ensures Samples(wpmData + [chars * 12])
  {
    assert (chars * 12) % 12 == 0;
  }

  /** Number of samples a session holds once its countdown has run out. */
  function FinalSampleCount(duration: int): nat {
    if duration > 0 then duration else 1
  }

  /** A tick on a countdown that has seconds left, or that has not ticked yet,
      keeps the samples within a finished test's count and reaches that count
      exactly when the countdown runs out. */
  lemma TickSampleCount(duration: int, remaining: int, ticks: nat)
    requires ticks == duration - remaining && ticks <= FinalSampleCount(duration)
    requires 0 < remaining || ticks == 0
    ensures ticks + 1 <= FinalSampleCount(duration)
    ensures remaining - 1 <= 0 <==> ticks + 1 == FinalSampleCount(duration)
  {
  }

  class Session {
    var durationSeconds: int
    var remainingSeconds: int
    var passageText: string
    var inputValue: string
    var startTime: Option<int>
    var timerActive: bool
    var wpmData: seq<int>
    var charsThisSecond: int
    var lastSecondTime: Option<int>
    ghost var phase: Phase
    ghost var tickReports: seq<int>

    /** Everything that holds between operations, except how far a running
        countdown may have got: the countdown plus the samples is the duration,
        and there are never more samples than a finished test holds. */
    ghost predicate Invariant()
      reads this
    {
      && |wpmData| == durationSeconds - remainingSeconds
      && |wpmData| <= FinalSampleCount(durationSeconds)
      && charsThisSecond >= 0
      && Samples(wpmData)
      && (timerActive <==> phase == Running)
      && (phase == Finished ==>
            remainingSeconds <= 0 && |wpmData| == FinalSampleCount(durationSeconds))
      && (tickReports == [] ==> phase == Idle && wpmData == [])
      && (tickReports != [] ==> tickReports == Countdown(durationSeconds, |wpmData|))
    }

    /** The session invariant: a running countdown has seconds left, unless no
        tick has happened yet. */
    ghost predicate Valid()
      reads this
    {
      Invariant() && (phase == Running ==> 0 < remainingSeconds || wpmData == [])
    }

    /** The state before any test has been started. */
    constructor ()
      ensures Valid() && phase == Idle && !timerActive
      ensures durationSeconds == 0 && remainingSeconds == 0
      ensures passageText == "" && inputValue == "" && wpmData == []
      ensures startTime == None && lastSecondTime == None
      ensures charsThisSecond == 0 && tickReports == []
    {
      durationSeconds := 0;
      remainingSeconds := 0;
      passageText := "";
      inputValue := "";
      startTime := None;
      timerActive := false;
      wpmData := [];
      charsThisSecond := 0;
      lastSecondTime := None;
      phase := Idle;
      tickReports := [];
    }

    /** Cancels the timer if there is one; a running test is aborted without a
        result, anything else is left as it is. */
    method Stop()
      requires Invariant()
      modifies this`timerActive, this`phase
      ensures Valid()
      ensures !timerActive
      ensures phase == if old(phase) == Running then Idle else old(phase)
    {
      if timerActive {
        timerActive := false;
        phase := Idle;
      }
    }

    /** Stops any previous test and starts a fresh one: the full duration on the
        clock, empty input and samples, and the first report of the remaining
        time made at once. */
    method Start(duration: int, passage: Option<string>, nowMs: int)
      requires Valid()
      modifies this
      ensures Valid()
      ensures durationSeconds == duration && remainingSeconds == duration
      ensures passageText == passage.GetOr("") && inputValue == ""
      ensures startTime == Some(nowMs) && lastSecondTime == Some(nowMs / 1000)
      ensures wpmData == [] && charsThisSecond == 0
      ensures timerActive && phase == Running
      ensures tickReports == [duration]
    {
      Stop();
      durationSeconds := duration;
      remainingSeconds := duration;
      passageText := passage.GetOr("");
      inputValue := "";
      startTime := Some(nowMs);
      wpmData := [];
      charsThisSecond := 0;
      lastSecondTime := Some(nowMs / 1000);
      timerActive := true;
      phase := Running;
      tickReports := [remainingSeconds];
    }

    /** One second has elapsed: count it down, sample the characters credited
        to it at 12 words per minute per character, open the next second and
        report; the tick that reaches zero finishes the test. */
    method Tick(nowMs: int) returns (completed: Option<TestResult>)
      requires Valid() && timerActive
      modifies this`remainingSeconds, this`wpmData, this`charsThisSecond, this`lastSecondTime
      modifies this`tickReports, this`timerActive, this`phase
      ensures Valid()
      ensures remainingSeconds == old(remainingSeconds) - 1
      ensures wpmData == old(wpmData) + [old(charsThisSecond) * 12]
      ensures charsThisSecond == 0 && lastSecondTime == Some(nowMs / 1000)
      ensures tickReports == old(tickReports) + [remainingSeconds]
      ensures durationSeconds == old(durationSeconds) && startTime == old(startTime)
      ensures passageText == old(passageText) && inputValue == old(inputValue)
      ensures completed.Some? <==> remainingSeconds <= 0
      ensures completed.None? ==> timerActive && phase == Running
      ensures completed.Some? ==>
        && !timerActive && phase == Finished
        && |wpmData| == FinalSampleCount(durationSeconds)
        && completed.value == FinalResult(startTime, nowMs, durationSeconds,
                                          passageText, inputValue, wpmData)
    {
      ghost var ticks := |wpmData|;
      remainingSeconds := remainingSeconds - 1;
      var now := nowMs / 1000;
      var wpmThisSecond := charsThisSecond * 12;
      TickSampleCount(durationSeconds, remainingSeconds + 1, ticks);
      SamplesAppend(wpmData, charsThisSecond);
      CountdownStep(durationSeconds, ticks);
      wpmData := wpmData + [wpmThisSecond];
      charsThisSecond := 0;
      lastSecondTime := Some(now);
      tickReports := tickReports + [remainingSeconds];

      if remainingSeconds <= 0 {
        var result := Finish(nowMs);
        completed := Some(result);
      } else {
        completed := None;
      }
    }

    /** Replaces the input; growth is credited to the current second only while
        no tick has passed since the second recorded last. */
    method SetInput(value: string, nowMs: int)
      requires Valid()
      modifies this`inputValue, this`charsThisSecond
      ensures Valid()
      ensures inputValue == value
      ensures charsThisSecond ==
        if lastSecondTime == Some(nowMs / 1000) && |value| > |old(inputValue)|
        then old(charsThisSecond) + (|value| - |old(inputValue)|)
        else old(charsThisSecond)
    {
      var prevLen := |inputValue|;
      inputValue := value;
      var now := nowMs / 1000;
      if lastSecondTime == Some(now) && |value| > prevLen {
        charsThisSecond := charsThisSecond + (|value| - prevLen);
      }
    }

    /** Stops the timer and computes the result of a countdown that has run out. */
    method Finish(nowMs: int) returns (result: TestResult)
      requires Invariant() && timerActive && remainingSeconds <= 0
      requires |wpmData| == FinalSampleCount(durationSeconds)
      modifies this`timerActive, this`phase
      ensures Valid() && !timerActive && phase == Finished
      ensures result == FinalResult(startTime, nowMs, durationSeconds,
                                    passageText, inputValue, wpmData)
    {
      Stop();
      phase := Finished;
      var elapsed := durationSeconds;
      var correct, total := GetAccuracyCounts(passageText, inputValue);
      var charactersTyped := |inputValue|;
      var wpm := Wpm(charactersTyped, elapsed);
      var accuracy := Accuracy(correct, total);
      result := TestResult(
        testId := startTime,
        date := nowMs,
        duration := durationSeconds,
        wpm := RoundTenth(wpm),
        accuracy := RoundTenth(accuracy),
        consistency := Consistency(wpmData),
        charactersTyped := charactersTyped,
        timeSelected := durationSeconds,
        wpmData := wpmData);
    }

    /** Seconds left on the clock; the samples taken so far make up the rest. */
    function RemainingSeconds(): (r: int)
      reads this
      ensures Valid() ==> r + |wpmData| == durationSeconds
      ensures Valid() && phase == Finished ==> r <= 0
      ensures Valid() && durationSeconds > 0 ==> 0 <= r <= durationSeconds
      ensures Valid() && durationSeconds > 0 && phase == Finished ==> r == 0
    {
      remainingSeconds
    }

    /** The passage and the current input, for the highlighting display. */
    function PassageAndInput(): (r: (string, string))
      reads this
      ensures r.0 == passageText && r.1 == inputValue
    {
      (passageText, inputValue)
    }

    /** A test is running exactly while its timer is. */
    function IsRunning(): (r: bool)
      reads this
      ensures Valid() ==> (r <==> phase == Running)
    {
      timerActive
    }
  }
}
