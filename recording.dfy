/** The recording module's static state and what changes it: the timer interrupt's tick
    (RTT_Handler), the stop gesture (touch_interrupt_handler) and a recording session
    (start_recording), with the interrupt and the polling loop interleaved one slice at a time:
    the timer ticks, then the loop consumes the slice that tick made ready. */
module Recording {
  import opened Metronome
  import opened Session
  import opened Segmentation

  class Recorder {
    // Written by the timer interrupt.
    var sixteenthNoteCnt: Byte
    var beatCnt: Byte
    var oneBeat: bool
    var upBeat: bool
    var metronomeOn: bool
    var processPingMode: bool
    var noteReceived: bool
    var processBuffer: array<real>
    var fillBuffer: array<real>
    const pingBuffer: array<real>
    const pongBuffer: array<real>

    // Written by the session.
    var beatsPerMeasure: Byte
    var recording: bool
    var rttCount: nat

    /** The note history ring. */
    const notes: array<MidiNote>

    /** Two distinct sample buffers, the processed and the filled buffer being one each of
        them, and a ring of NOTE_BUF_SIZE notes. */
    ghost predicate Valid()
      reads this`processBuffer, this`fillBuffer
    {
      && pingBuffer != pongBuffer
      && (processBuffer == pingBuffer || processBuffer == pongBuffer)
      && (fillBuffer == pingBuffer || fillBuffer == pongBuffer)
      && processBuffer != fillBuffer
      && notes.Length == NoteBufSize
    }

    /** Between sessions: no slice pending and not recording. */
    ghost predicate Idle()
      reads this`processBuffer, this`fillBuffer, this`noteReceived, this`recording
    {
      Valid() && !noteReceived && !recording
    }

    /** The part of the state a tick reads and writes. */
    ghost function TickState(): Clock
      reads this`sixteenthNoteCnt, this`beatCnt, this`oneBeat, this`upBeat, this`metronomeOn,
            this`processPingMode, this`processBuffer, this`fillBuffer
    {
      Clock(sixteenthNoteCnt, beatCnt, oneBeat, upBeat, metronomeOn, processPingMode,
            processBuffer == pingBuffer, fillBuffer == pingBuffer)
    }

    /** The main loop's state after `noteCnt` of the performer's slices: no slice pending,
        recording exactly until the stop gesture, the ring and the segmentation state those of
        the slices segmented, the events past the count still those found at the start
        (`events0`), and the clock one tick further on per slice after the count-in. */
    ghost predicate Segmenting(events: array<MidiEvent>, slices: seq<MidiNote>, stopAt: nat, ring0: seq<MidiNote>,
                               events0: seq<MidiEvent>, start: Clock, noteCnt: nat, numberOfEvents: nat, rhythm: nat)
      reads this, notes, events
    {
      && Valid() && !noteReceived
      && noteCnt <= |slices| && numberOfEvents <= events.Length && |ring0| == NoteBufSize
      && (recording <==> noteCnt < stopAt)
      && notes[..] == RingAfter(ring0, slices[..noteCnt])
      && Seg(events[..numberOfEvents], rhythm) == Segment(slices[..noteCnt])
      && |events0| == events.Length
      && (forall i :: numberOfEvents <= i < events.Length ==> events[i] == events0[i])
      && TickState() == Ticks(start, beatsPerMeasure, 4 * beatsPerMeasure + 1 + noteCnt)
    }

    /** Static storage starts zeroed. The two sample buffers, the buffer mode and the buffer
        roles belong to the audio driver: the buffers and the mode are given, and the first
        buffer starts as the one processed, the second as the one filled. */
    constructor (ping: array<real>, pong: array<real>, mode: bool)
      requires ping != pong
      ensures Idle()
      ensures pingBuffer == ping && pongBuffer == pong && processBuffer == ping && fillBuffer == pong
      ensures fresh(notes) && forall i :: 0 <= i < NoteBufSize ==> notes[i] == MidiNote(0, 0.0)
      ensures sixteenthNoteCnt == 0 && beatCnt == 0 && beatsPerMeasure == 0
      ensures !oneBeat && !upBeat && !metronomeOn && processPingMode == mode
    {
      sixteenthNoteCnt, beatCnt, beatsPerMeasure := 0, 0, 0;
      oneBeat, upBeat, metronomeOn, processPingMode := false, false, false, mode;
      noteReceived, recording := false, false;
      rttCount := 0;
      pingBuffer, pongBuffer := ping, pong;
      processBuffer, fillBuffer := ping, pong;
      notes := new MidiNote[NoteBufSize](_ => MidiNote(0, 0.0));
    }

    /** The timer-increment interrupt. */
    method Tick()
      requires Valid()
      modifies this`sixteenthNoteCnt, this`beatCnt, this`oneBeat, this`upBeat, this`metronomeOn,
               this`processPingMode, this`processBuffer, this`fillBuffer, this`noteReceived
      ensures Valid() && noteReceived
      ensures TickState() == TickStep(old(TickState()), beatsPerMeasure)
      ensures processBuffer == (if old(processPingMode) then pingBuffer else pongBuffer)
      ensures fillBuffer == (if old(processPingMode) then pongBuffer else pingBuffer)
      ensures beatsPerMeasure == old(beatsPerMeasure) && recording == old(recording) && rttCount == old(rttCount)
    {
      if processPingMode {
        processBuffer := pingBuffer;
        fillBuffer := pongBuffer;
        processPingMode := !processPingMode;
      } else {
        processBuffer := pongBuffer;
        fillBuffer := pingBuffer;
        processPingMode := !processPingMode;
      }
      noteReceived := true;
      oneBeat := false;
      upBeat := false;
      if sixteenthNoteCnt == 4 {
        metronomeOn := true;
        sixteenthNoteCnt := 1;
        if beatCnt == beatsPerMeasure {
          oneBeat := true;
          beatCnt := 1;
        } else {
          beatCnt := (beatCnt + 1) % 256;
        }
      } else {
        if sixteenthNoteCnt == 2 {
          metronomeOn := true;
          upBeat := true;
        }
        sixteenthNoteCnt := (sixteenthNoteCnt + 1) % 256;
      }
    }

    /** The touch interrupt: the performer asks to stop. */
    method StopGesture()
      modifies this`recording
      ensures !recording
    {
      recording := false;
    }

    /** Session setup: the stop input is armed (its handler runs once), the time signature
        gives the beats per measure, the counters are placed one sixteenth before a downbeat,
        the pulses are cleared, recording starts and the timer gets its count. */
    method BeginSession(sig: TimeSignatureId, bpm: nat)
      requires Valid() && 0 < bpm < 0x1_0000_0000
      modifies this`recording, this`beatsPerMeasure, this`sixteenthNoteCnt, this`beatCnt, this`oneBeat,
               this`upBeat, this`metronomeOn, this`rttCount
      ensures Valid()
      ensures beatsPerMeasure == BeatsPerMeasure(sig) && recording && rttCount == TimerCount(bpm)
      ensures TickState() == SessionStart(old(TickState()), beatsPerMeasure)
      ensures processBuffer == old(processBuffer) && fillBuffer == old(fillBuffer) && noteReceived == old(noteReceived)
    {
      StopGesture();
      beatsPerMeasure := BeatsPerMeasure(sig);
      sixteenthNoteCnt := 4;
      beatCnt := beatsPerMeasure;
      oneBeat := false;
      upBeat := false;
      metronomeOn := false;
      recording := true;
      rttCount := TimerCount(bpm);
    }

    /** The count-in: wait for `4*beats + 1` ready slices, clearing the flag after each. */
    method CountIn()
      requires Valid() && !noteReceived
      modifies this`sixteenthNoteCnt, this`beatCnt, this`oneBeat, this`upBeat, this`metronomeOn,
               this`processPingMode, this`processBuffer, this`fillBuffer, this`noteReceived
      ensures Valid() && !noteReceived
      ensures TickState() == Ticks(old(TickState()), beatsPerMeasure, 4 * beatsPerMeasure + 1)
      ensures beatsPerMeasure == old(beatsPerMeasure) && recording == old(recording) && rttCount == old(rttCount)
    {
      ghost var c0 := TickState();
      var i := 0;
      while i < 4 * beatsPerMeasure + 1
        invariant 0 <= i <= 4 * beatsPerMeasure + 1
        invariant Valid() && !noteReceived
        invariant beatsPerMeasure == old(beatsPerMeasure) && recording == old(recording) && rttCount == old(rttCount)
        invariant TickState() == Ticks(c0, beatsPerMeasure, i)
      {
        while !noteReceived
          invariant Valid()
          invariant beatsPerMeasure == old(beatsPerMeasure) && recording == old(recording) && rttCount == old(rttCount)
          invariant noteReceived ==> TickState() == Ticks(c0, beatsPerMeasure, i + 1)
          invariant !noteReceived ==> TickState() == Ticks(c0, beatsPerMeasure, i)
          decreases if noteReceived then 0 else 1
        {
          Tick();
        }
        noteReceived := false;
        i := i + 1;
      }
    }

    /** The body of the main loop for one ready slice: the estimate goes to ring slot
        `noteCnt & 127`, and from the second slice on it is compared with the previous slot:
        on an onset the previous note is appended at `events[numberOfEvents]` with the
        accumulated rhythm and the rhythm restarts, otherwise the rhythm grows. Nothing checks
        that `numberOfEvents` is inside the array: the caller must. */
    method ConsumeSlice(events: array<MidiEvent>, est: MidiNote, noteCnt: nat, numberOfEvents: nat, rhythm: nat)
      returns (count: nat, newRhythm: nat)
      requires Valid() && numberOfEvents < events.Length
      modifies notes, events
      ensures notes[..] == old(notes[..])[Slot(noteCnt) := est]
      ensures noteCnt == 0 ==> count == numberOfEvents && newRhythm == rhythm && events[..] == old(events[..])
      ensures numberOfEvents <= count <= numberOfEvents + 1
      ensures 1 <= noteCnt ==>
        Seg(events[..count], newRhythm) == Advance(Seg(old(events[..numberOfEvents]), rhythm), old(notes[Slot(noteCnt - 1)]), est)
      ensures forall i :: 0 <= i < events.Length && i != numberOfEvents ==> events[i] == old(events[i])
      ensures count == numberOfEvents ==> events[..] == old(events[..])
    {
      notes[Slot(noteCnt)] := est;
      count, newRhythm := numberOfEvents, rhythm;
      if noteCnt > 0 {
        SlotsOfRecentSlicesDiffer(noteCnt - 1, noteCnt);
        var prev := notes[Slot(noteCnt - 1)];
        if IsOnset(prev, notes[Slot(noteCnt)]) {
          events[count] := MidiEvent(prev.noteNumber, EventVelocity, newRhythm);
          count := count + 1;
          newRhythm := 1;
        } else {
          newRhythm := newRhythm + 1;
        }
      }
    }

    /** One pass of the main loop while the performer plays: the timer ticks, the loop sees the
        ready flag, segments slice `noteCnt` and clears the flag; the stop gesture arrives once
        `stopAt` slices are in. */
    method SlicePeriod(events: array<MidiEvent>, slices: seq<MidiNote>, stopAt: nat,
                       noteCnt: nat, numberOfEvents: nat, rhythm: nat, ghost ring0: seq<MidiNote>,
                       ghost events0: seq<MidiEvent>, ghost start: Clock)
      returns (count: nat, newRhythm: nat)
      requires Segmenting(events, slices, stopAt, ring0, events0, start, noteCnt, numberOfEvents, rhythm)
      requires noteCnt < |slices| && numberOfEvents < events.Length
      modifies this, notes, events
      ensures Segmenting(events, slices, stopAt, ring0, events0, start, noteCnt + 1, count, newRhythm)
      ensures beatsPerMeasure == old(beatsPerMeasure) && rttCount == old(rttCount)
      ensures numberOfEvents <= count <= numberOfEvents + 1
      ensures forall i :: count <= i < events.Length ==> events[i] == old(events[i])
    {
      ghost var ticks := 4 * beatsPerMeasure + 1 + noteCnt;
      Tick();
      ghost var clock := TickState();
      assert clock == Ticks(start, beatsPerMeasure, ticks + 1);
      assert ticks + 1 == 4 * beatsPerMeasure + 1 + (noteCnt + 1);
      count, newRhythm := numberOfEvents, rhythm;
      if noteReceived {
        RingAfterSnoc(ring0, slices, noteCnt);
        SegmentSnoc(slices, noteCnt);
        count, newRhythm := ConsumeSlice(events, slices[noteCnt], noteCnt, numberOfEvents, rhythm);
        noteReceived := false;
      }
      if noteCnt + 1 == stopAt {
        StopGesture();
      }
      assert TickState() == clock;
    }

    /** The teardown after the loop: recording and the metronome stop, and the pending note is
        written from ring slot `(noteCnt-1) & 127` with the rhythm it has accumulated, so that
        the events written are the whole transcription of the slices segmented. */
    method Finish(events: array<MidiEvent>, numberOfEvents: nat, noteCnt: nat, rhythm: nat,
                  ghost slices: seq<MidiNote>, ghost ring0: seq<MidiNote>)
      returns (count: nat)
      requires Valid() && numberOfEvents < events.Length
      requires |ring0| == NoteBufSize && noteCnt == |slices| && notes[..] == RingAfter(ring0, slices)
      requires Seg(events[..numberOfEvents], rhythm) == Segment(slices)
      modifies this`recording, this`metronomeOn, events
      ensures Valid() && !recording && TickState() == old(TickState()).(metronomeOn := false)
      ensures beatsPerMeasure == old(beatsPerMeasure) && rttCount == old(rttCount)
      ensures notes[..] == old(notes[..])
      ensures count == numberOfEvents + 1
      ensures events[..count] == Transcription(slices, ring0[NoteBufSize - 1])
      ensures forall i :: count <= i < events.Length ==> events[i] == old(events[i])
    {
      recording := false;
      metronomeOn := false;
      FlushReadsLastNote(ring0, slices);
      events[numberOfEvents] := MidiEvent(notes[Slot(noteCnt - 1)].noteNumber, EventVelocity, rhythm);
      count := numberOfEvents + 1;
      assert events[..count] == old(events[..numberOfEvents]) + [events[numberOfEvents]];
    }

    /** The main loop with its guard as written, `recording || numberOfEvents ==
        MAX_NUM_EVENTS-1`, run from the end of the count-in over the performer's slices, one
        per tick; the stop gesture comes after `stopAt` of them. It segments
        `WrittenRunLength` slices. Nothing bounds the writes into the events array, so the
        caller must make it larger than the number of slices. */
    method SegmentAsWritten(events: array<MidiEvent>, maxEvents: nat, slices: seq<MidiNote>, stopAt: nat,
                            ghost start: Clock, ghost ring0: seq<MidiNote>)
      returns (numberOfEvents: nat, noteCnt: nat, rhythm: nat)
      requires Valid() && !noteReceived && (recording <==> 0 < stopAt)
      requires |slices| < events.Length
      requires |ring0| == NoteBufSize && notes[..] == ring0
      requires TickState() == Ticks(start, beatsPerMeasure, 4 * beatsPerMeasure + 1)
      modifies this, notes, events
      ensures Valid() && !noteReceived
      ensures beatsPerMeasure == old(beatsPerMeasure) && rttCount == old(rttCount)
      ensures noteCnt == WrittenRunLength(slices, stopAt, maxEvents, 0) && numberOfEvents <= noteCnt
      ensures recording <==> noteCnt < stopAt
      ensures notes[..] == RingAfter(ring0, slices[..noteCnt])
      ensures Seg(events[..numberOfEvents], rhythm) == Segment(slices[..noteCnt])
      ensures forall i :: numberOfEvents <= i < events.Length ==> events[i] == old(events[i])
      ensures TickState() == Ticks(start, beatsPerMeasure, 4 * beatsPerMeasure + 1 + noteCnt)
    {
      numberOfEvents, noteCnt, rhythm := 0, 0, 1;
      ghost var events0 := events[..];
      assert slices[..0] == [];
      while (recording || numberOfEvents == maxEvents - 1) && noteCnt < |slices|
        invariant Segmenting(events, slices, stopAt, ring0, events0, start, noteCnt, numberOfEvents, rhythm)
        invariant beatsPerMeasure == old(beatsPerMeasure) && rttCount == old(rttCount)
        invariant numberOfEvents <= noteCnt
        invariant WrittenRunLength(slices, stopAt, maxEvents, noteCnt) == WrittenRunLength(slices, stopAt, maxEvents, 0)
        decreases |slices| - noteCnt
      {
        numberOfEvents, rhythm := SlicePeriod(events, slices, stopAt, noteCnt, numberOfEvents, rhythm, ring0, events0, start);
        noteCnt := noteCnt + 1;
      }
    }

    /** The main loop with the guard evidently intended, `recording && numberOfEvents <
        MAX_NUM_EVENTS-1`: it stops at the stop gesture or at MAX_NUM_EVENTS-1 events, whatever
        the number of slices. */
    method SegmentWithCeiling(events: array<MidiEvent>, maxEvents: nat, slices: seq<MidiNote>, stopAt: nat,
                              ghost start: Clock, ghost ring0: seq<MidiNote>)
      returns (numberOfEvents: nat, noteCnt: nat, rhythm: nat)
      requires Valid() && !noteReceived && (recording <==> 0 < stopAt)
      requires 1 <= maxEvents <= events.Length
      requires |ring0| == NoteBufSize && notes[..] == ring0
      requires TickState() == Ticks(start, beatsPerMeasure, 4 * beatsPerMeasure + 1)
      modifies this, notes, events
      ensures Valid() && !noteReceived
      ensures beatsPerMeasure == old(beatsPerMeasure) && rttCount == old(rttCount)
      ensures noteCnt == CeilingRunLength(slices, stopAt, maxEvents, 0) && numberOfEvents <= maxEvents - 1
      ensures recording <==> noteCnt < stopAt
      ensures notes[..] == RingAfter(ring0, slices[..noteCnt])
      ensures Seg(events[..numberOfEvents], rhythm) == Segment(slices[..noteCnt])
      ensures forall i :: numberOfEvents <= i < events.Length ==> events[i] == old(events[i])
      ensures TickState() == Ticks(start, beatsPerMeasure, 4 * beatsPerMeasure + 1 + noteCnt)
    {
      numberOfEvents, noteCnt, rhythm := 0, 0, 1;
      ghost var events0 := events[..];
      assert slices[..0] == [];
      while (recording && numberOfEvents < maxEvents - 1) && noteCnt < |slices|
        invariant Segmenting(events, slices, stopAt, ring0, events0, start, noteCnt, numberOfEvents, rhythm)
        invariant beatsPerMeasure == old(beatsPerMeasure) && rttCount == old(rttCount)
        invariant numberOfEvents <= maxEvents - 1
        invariant CeilingRunLength(slices, stopAt, maxEvents, noteCnt) == CeilingRunLength(slices, stopAt, maxEvents, 0)
        decreases |slices| - noteCnt
      {
        numberOfEvents, rhythm := SlicePeriod(events, slices, stopAt, noteCnt, numberOfEvents, rhythm, ring0, events0, start);
        noteCnt := noteCnt + 1;
      }
    }

    /** Setup and count-in, and the stop gesture when it comes before the first slice. */
    method Prepare(sig: TimeSignatureId, bpm: nat, stopAt: nat)
      requires Idle() && 0 < bpm < 0x1_0000_0000
      modifies this
      ensures Valid() && !noteReceived && (recording <==> 0 < stopAt)
      ensures beatsPerMeasure == BeatsPerMeasure(sig) && rttCount == TimerCount(bpm)
      ensures TickState() == Ticks(SessionStart(old(TickState()), beatsPerMeasure), beatsPerMeasure,
                                   4 * beatsPerMeasure + 1)
    {
      BeginSession(sig, bpm);
      CountIn();
      if stopAt == 0 {
        StopGesture();
      }
    }

    /** The main loop with its guard as written and, once it has stopped, the flush; `finished` is false
        when the performer's slices run out while the guard still holds. */
    method RunAsWritten(events: array<MidiEvent>, maxEvents: nat, slices: seq<MidiNote>, stopAt: nat,
                        ghost start: Clock, ghost beats: Byte)
      returns (numberOfEvents: nat, noteCnt: nat, finished: bool)
      requires Valid() && !noteReceived && (recording <==> 0 < stopAt)
      requires |slices| < events.Length
      requires beatsPerMeasure == beats && TickState() == Ticks(start, beats, 4 * beats + 1)
      modifies this, notes, events
      ensures Valid() && !noteReceived
      ensures beatsPerMeasure == beats && rttCount == old(rttCount)
      ensures noteCnt == WrittenRunLength(slices, stopAt, maxEvents, 0)
      ensures notes[..] == RingAfter(old(notes[..]), slices[..noteCnt])
      ensures numberOfEvents <= events.Length && events[numberOfEvents..] == old(events[numberOfEvents..])
      ensures finished <==> !WrittenGuard(slices, stopAt, maxEvents, noteCnt)
      ensures numberOfEvents <= noteCnt + 1
      ensures finished ==> !recording && events[..numberOfEvents] == Transcription(slices[..noteCnt], old(notes[NoteBufSize - 1]))
      ensures !finished ==> recording == (noteCnt < stopAt) && events[..numberOfEvents] == Segment(slices[..noteCnt]).events
      ensures finished ==> TickState() == Ticks(start, beats, 4 * beats + 1 + noteCnt).(metronomeOn := false)
      ensures !finished ==> TickState() == Ticks(start, beats, 4 * beats + 1 + noteCnt)
    {
      ghost var ring0 := notes[..];
      assert ring0[NoteBufSize - 1] == old(notes[NoteBufSize - 1]);
      var rhythm;
      numberOfEvents, noteCnt, rhythm := SegmentAsWritten(events, maxEvents, slices, stopAt, start, ring0);
      finished := !(recording || numberOfEvents == maxEvents - 1);
      if finished {
        numberOfEvents := Finish(events, numberOfEvents, noteCnt, rhythm, slices[..noteCnt], ring0);
      }
      assert notes[..] == RingAfter(ring0, slices[..noteCnt]);
    }

    /** The main loop with the guard evidently intended and, once it has stopped, the flush; `finished` is false
        when the performer's slices run out while the guard still holds. */
    method RunWithCeiling(events: array<MidiEvent>, maxEvents: nat, slices: seq<MidiNote>, stopAt: nat,
                          ghost start: Clock, ghost beats: Byte)
      returns (numberOfEvents: nat, noteCnt: nat, finished: bool)
      requires Valid() && !noteReceived && (recording <==> 0 < stopAt)
      requires 1 <= maxEvents <= events.Length
      requires beatsPerMeasure == beats && TickState() == Ticks(start, beats, 4 * beats + 1)
      modifies this, notes, events
      ensures Valid() && !noteReceived
      ensures beatsPerMeasure == beats && rttCount == old(rttCount)
      ensures noteCnt == CeilingRunLength(slices, stopAt, maxEvents, 0)
      ensures notes[..] == RingAfter(old(notes[..]), slices[..noteCnt])
      ensures numberOfEvents <= events.Length && events[numberOfEvents..] == old(events[numberOfEvents..])
      ensures finished <==> !CeilingGuard(slices, stopAt, maxEvents, noteCnt)
      ensures numberOfEvents <= maxEvents
      ensures finished ==> !recording && events[..numberOfEvents] == Transcription(slices[..noteCnt], old(notes[NoteBufSize - 1]))
      ensures !finished ==> recording && events[..numberOfEvents] == Segment(slices[..noteCnt]).events
      ensures finished ==> TickState() == Ticks(start, beats, 4 * beats + 1 + noteCnt).(metronomeOn := false)
      ensures !finished ==> TickState() == Ticks(start, beats, 4 * beats + 1 + noteCnt)
    {
      ghost var ring0 := notes[..];
      assert ring0[NoteBufSize - 1] == old(notes[NoteBufSize - 1]);
      var rhythm;
      numberOfEvents, noteCnt, rhythm := SegmentWithCeiling(events, maxEvents, slices, stopAt, start, ring0);
      finished := !(recording && numberOfEvents < maxEvents - 1);
      if finished {
        numberOfEvents := Finish(events, numberOfEvents, noteCnt, rhythm, slices[..noteCnt], ring0);
      }
      assert notes[..] == RingAfter(ring0, slices[..noteCnt]);
    }

    /** A whole session with the guard as written: setup, count-in, the main loop, and the
        flush once the guard fails. If the guard still holds when the performer's slices run
        out, the session has not finished (`finished` is false: the device would go on
        waiting for slices) and nothing is flushed. */
    method StartRecording(events: array<MidiEvent>, bpm: nat, sig: TimeSignatureId, maxEvents: nat,
                          slices: seq<MidiNote>, stopAt: nat)
      returns (numberOfEvents: nat, noteCnt: nat, finished: bool)
      requires Idle() && 0 < bpm < 0x1_0000_0000
      requires |slices| < events.Length
      modifies this, notes, events
      ensures Valid() && !noteReceived
      ensures beatsPerMeasure == BeatsPerMeasure(sig) && rttCount == TimerCount(bpm)
      ensures noteCnt == WrittenRunLength(slices, stopAt, maxEvents, 0)
      ensures notes[..] == RingAfter(old(notes[..]), slices[..noteCnt])
      ensures numberOfEvents <= events.Length && events[numberOfEvents..] == old(events[numberOfEvents..])
      ensures finished <==> !WrittenGuard(slices, stopAt, maxEvents, noteCnt)
      ensures finished ==> !recording && events[..numberOfEvents] == Transcription(slices[..noteCnt], old(notes[NoteBufSize - 1]))
      ensures !finished ==> recording == (noteCnt < stopAt) && events[..numberOfEvents] == Segment(slices[..noteCnt]).events
      ensures finished ==> TickState() == Ticks(SessionStart(old(TickState()), BeatsPerMeasure(sig)), BeatsPerMeasure(sig),
                                                4 * BeatsPerMeasure(sig) + 1 + noteCnt).(metronomeOn := false)
      ensures !finished ==> TickState() == Ticks(SessionStart(old(TickState()), BeatsPerMeasure(sig)), BeatsPerMeasure(sig),
                                                 4 * BeatsPerMeasure(sig) + 1 + noteCnt)
    {
      ghost var start := SessionStart(TickState(), BeatsPerMeasure(sig));
      Prepare(sig, bpm, stopAt);
      numberOfEvents, noteCnt, finished := RunAsWritten(events, maxEvents, slices, stopAt, start, BeatsPerMeasure(sig));
      assert finished ==> TickState() == Ticks(start, BeatsPerMeasure(sig), 4 * BeatsPerMeasure(sig) + 1 + noteCnt)
                                           .(metronomeOn := false);
      assert start == SessionStart(old(TickState()), BeatsPerMeasure(sig));
    }

    /** A whole session with the guard evidently intended: the flushed transcription fits an
        events array of MAX_NUM_EVENTS, however many slices the performer plays. */
    method StartRecordingWithCeiling(events: array<MidiEvent>, bpm: nat, sig: TimeSignatureId, maxEvents: nat,
                                     slices: seq<MidiNote>, stopAt: nat)
      returns (numberOfEvents: nat, noteCnt: nat, finished: bool)
      requires Idle() && 0 < bpm < 0x1_0000_0000
      requires 1 <= maxEvents <= events.Length
      modifies this, notes, events
      ensures Valid() && !noteReceived
      ensures beatsPerMeasure == BeatsPerMeasure(sig) && rttCount == TimerCount(bpm)
      ensures noteCnt == CeilingRunLength(slices, stopAt, maxEvents, 0)
      ensures notes[..] == RingAfter(old(notes[..]), slices[..noteCnt])
      ensures numberOfEvents <= events.Length && events[numberOfEvents..] == old(events[numberOfEvents..])
      ensures finished <==> !CeilingGuard(slices, stopAt, maxEvents, noteCnt)
      ensures numberOfEvents <= maxEvents
      ensures finished ==> !recording && events[..numberOfEvents] == Transcription(slices[..noteCnt], old(notes[NoteBufSize - 1]))
      ensures !finished ==> recording && events[..numberOfEvents] == Segment(slices[..noteCnt]).events
      ensures finished ==> TickState() == Ticks(SessionStart(old(TickState()), BeatsPerMeasure(sig)), BeatsPerMeasure(sig),
                                                4 * BeatsPerMeasure(sig) + 1 + noteCnt).(metronomeOn := false)
      ensures !finished ==> TickState() == Ticks(SessionStart(old(TickState()), BeatsPerMeasure(sig)), BeatsPerMeasure(sig),
                                                 4 * BeatsPerMeasure(sig) + 1 + noteCnt)
    {
      ghost var start := SessionStart(TickState(), BeatsPerMeasure(sig));
      Prepare(sig, bpm, stopAt);
      numberOfEvents, noteCnt, finished := RunWithCeiling(events, maxEvents, slices, stopAt, start, BeatsPerMeasure(sig));
      assert finished ==> TickState() == Ticks(start, BeatsPerMeasure(sig), 4 * BeatsPerMeasure(sig) + 1 + noteCnt)
                                           .(metronomeOn := false);
      assert start == SessionStart(old(TickState()), BeatsPerMeasure(sig));
    }
  }
}
