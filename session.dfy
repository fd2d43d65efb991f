/** Session setup arithmetic of start_recording: the time signature, the timer count per
    sixteenth note and the count-in before transcription starts. */
module Session {
  import opened Metronome

  /** The identifier carried by the time signature the caller passes; `Unlisted` stands for any
      other value of the identifier (the 6/8 case, or anything else). */
  datatype TimeSignatureId = FourFour | ThreeFour | TwoFour | Unlisted(code: int)

  /** Beats in a measure: 4/4 -> 4, 3/4 -> 3, 2/4 -> 2 and every other identifier silently
      becomes 6 (there is no error path). */
  function BeatsPerMeasure(sig: TimeSignatureId): (beats: Byte)
    ensures beats == 2 || beats == 3 || beats == 4 || beats == 6
    ensures beats == 4 <==> sig.FourFour?
    ensures beats == 3 <==> sig.ThreeFour?
    ensures beats == 2 <==> sig.TwoFour?
    ensures beats == 6 <==> sig.Unlisted?
  {
    if sig.FourFour? then 4
    else if sig.ThreeFour? then 3
    else if sig.TwoFour? then 2
    else 6
  }

  /** Frequency of the real-time timer's slow clock, in Hz. */
  const SlowClockHz: nat := 32768

  /** The timer count for one sixteenth note at `bpm` quarter notes per minute: a sixteenth
      lasts 60 / (4 * bpm) = 15 / bpm seconds, that is 32768 * 15 / bpm slow-clock periods,
      rounded down by the unsigned division; `bpm` must not be zero. */
  function TimerCount(bpm: nat): (count: nat)
    requires 0 < bpm
    ensures count <= 491520 < 0x1_0000_0000
  {
    SlowClockHz * 15 / bpm
  }

  /** The count is the whole number of slow-clock periods in a sixteenth: the sixteenth is at
      least that long and shorter than one period more. */
  lemma TimerCountIsSixteenth(bpm: nat)
    requires 0 < bpm
    ensures TimerCount(bpm) * bpm <= SlowClockHz * 15 < (TimerCount(bpm) + 1) * bpm
  {
    var total := SlowClockHz * 15;
    assert total == (total / bpm) * bpm + total % bpm;
    assert (total / bpm + 1) * bpm == (total / bpm) * bpm + bpm;
  }

  /** The count-in consumes `4 * beats + 1` ticks before the first slice is segmented: one
      full measure of sixteenths plus one. It ends on the first sixteenth of the first beat
      of a measure, the tick that raised `oneBeat`, with the metronome running: after one
      full measure the counters are back where they started, and one more tick wraps them
      to the downbeat. */
  lemma PreRollEndsOnDownbeat(c: Clock, sig: TimeSignatureId)
    ensures var beats := BeatsPerMeasure(sig);
      var r := Ticks(SessionStart(c, beats), beats, 4 * beats + 1);
      r.sixteenth == 1 && r.beat == 1 && r.oneBeat && !r.upBeat && r.metronomeOn
  {
    var beats := BeatsPerMeasure(sig);
    CountInCounters(c, beats);
    CountInFlags(c, beats);
  }

  lemma CountInCounters(c: Clock, beats: Byte)
    requires 1 <= beats
    ensures Ticks(SessionStart(c, beats), beats, 4 * beats + 1).sixteenth == 1
    ensures Ticks(SessionStart(c, beats), beats, 4 * beats + 1).beat == 1
  {
    var s0 := SessionStart(c, beats);
    MeasureIsPeriodic(s0, beats, 1);
    assert Ticks(s0, beats, 1) == TickStep(s0, beats);
  }

  lemma CountInFlags(c: Clock, beats: Byte)
    requires 1 <= beats
    ensures Ticks(SessionStart(c, beats), beats, 4 * beats + 1).oneBeat
    ensures !Ticks(SessionStart(c, beats), beats, 4 * beats + 1).upBeat
    ensures Ticks(SessionStart(c, beats), beats, 4 * beats + 1).metronomeOn
  {
    var n := 4 * beats + 1;
    OneBeatOncePerMeasure(c, beats, n);
    ModUnique(n, 4 * beats, 1, 1);
    UpBeatOnOffBeats(c, beats, n);
    assert n % 4 == 1;
    MetronomeOnFromFirstTick(c, beats, n);
  }
}
