# GatorScribe recording core in Dafny

GatorScribe is a recorder that turns a sung or played melody into MIDI events. This project
models its recording module, `Recording/recording.c`. The module has three parts:

- **The metronome tick.** `RTT_Handler` is the real-time-timer interrupt. It fires once per
  sixteenth note. On each tick it swaps the ping/pong sample buffers, raises the "slice
  ready" flag and advances two 8-bit counters: the sixteenth counter (1..4) and the beat
  counter (1..beats). As it goes it sets the `one_beat`, `up_beat` and `metronome_on` pulses.
- **The session setup.** `start_recording` maps the time signature to beats per measure and
  computes the timer count `32768*15/bpm`. It places the counters one sixteenth before a
  downbeat. The count-in then waits `4*beats + 1` ready slices.
- **Segmentation and quantisation.** The main loop of `start_recording` writes each slice's
  pitch estimate into the 128-slot ring `notes[note_cnt & 127]` and compares it with the
  previous slot. On an onset it appends `{previous note, 64, rhythm}` to the caller's
  `events` array and restarts the rhythm; otherwise the rhythm grows by one sixteenth. When
  the loop ends, the pending note is flushed as one more event.

The files:

- `metronome.dfy` (module `Metronome`) holds the tick, stated on values. It has a `Clock`
  datatype and the functions `TickStep`, `Ticks` and `SessionStart`. The lemmas cover counter
  ranges, periodicity, the pulses and the buffer roles.
- `session.dfy` (module `Session`) holds the time-signature mapping, the timer count and what
  the count-in leaves behind.
- `segmentation.dfy` (module `Segmentation`) holds segmentation as a function of the slices.
  - `Segment` and `Transcription` are proved equal, by `SegmentExpands` and
    `TranscriptionExpands`, to a reference reading: `Expand` plays every event out as its note
    repeated once per sixteenth of its rhythm, and the result is the slices' note numbers. The lemmas
    cover rhythm conservation, the onset rule and the ring.
  - It also counts how many slices the main loop consumes, under the guard as written and
    under the intended guard.
- `recording.dfy` (module `Recording`) holds the class `Recorder`, whose fields are the
  module's static variables.
  - `Tick` is the interrupt handler, `StopGesture` the touch handler and `BeginSession` the
    setup. `CountIn` is the count-in loop.
  - `ConsumeSlice`, `SlicePeriod`, `SegmentAsWritten`, `SegmentWithCeiling` and `Finish` are
    the main loop and the flush. They work in place on the `notes` ring array and the
    `events` array. Each is proved against the functions above.
  - `StartRecording` is a whole session with the loop guard as written.
    `StartRecordingWithCeiling` is a whole session with the guard the code evidently intends
    (see Findings).

Rhythms are whole numbers of sixteenths: 0.25 in the source is 1 here. Loudness is a `real`,
so the `1.05` factor is exact. Counters are 8-bit: their `++` is written `% 256`.

Three behaviours of the code are easy to misread, and the model follows the code in each:

- `one_beat` fires once per measure, despite its name: it is raised only when the beat
  counter wraps (recording.c:137-141; `OneBeatOncePerMeasure`, `OneBeatCountInFirstMeasure`).
- An unrecognised time-signature identifier is not rejected. It silently becomes 6 beats
  (recording.c:187-188; `BeatsPerMeasure`).
- The main-loop guard is no ceiling on the number of events (recording.c:205; see Findings).

The interleaving of interrupt and main loop is sequential:

- During the count-in, ticks happen until the loop sees the ready flag.
- In the main loop, every pass is one tick followed by the consumption of the slice that the
  tick made ready.
- The performer's stop gesture arrives after `stopAt` slices.
- The pitch detector's estimates are the input sequence `slices`.

## Model

| member | source | states |
|---|---|---|
| Metronome.TickFlags | Atmel_Projects/GatorScribe/GatorScribe/DanLib/Recording/recording.c:128-154 | From counters in range, `one_beat` is up after a tick exactly when the tick lands on the downbeat (position 0 of the measure), `up_beat` exactly when it lands on the "and" of a beat (position 2 modulo 4), and `metronome_on` is set exactly when it already was or the tick lands on an eighth-note boundary (an even position) |
| Metronome.TickCounters | Atmel_Projects/GatorScribe/GatorScribe/DanLib/Recording/recording.c:132-156 | From counters in range a tick keeps them in range, the sixteenth counter goes 4 -> 1 -> 2 -> 3 -> 4, the beat counter advances (wrapping `beats` -> 1) only on a quarter, and the position in the measure advances by one modulo `4*beats` |
| Metronome.TicksPosition | Atmel_Projects/GatorScribe/GatorScribe/DanLib/Recording/recording.c:132-156 | After n ticks the counters are still in range and the position in the measure has advanced by n modulo `4*beats` |
| Metronome.MeasureIsPeriodic | Atmel_Projects/GatorScribe/GatorScribe/DanLib/Recording/recording.c:132-156 | After `4*beats` more ticks both counters are back to their earlier values (with n = 0: back to the start values) |
| Metronome.SixteenthAfter | Atmel_Projects/GatorScribe/GatorScribe/DanLib/Recording/recording.c:132-156 | The sixteenth counter after n ticks is `(start - 1 + n) % 4 + 1`, whatever the measure length |
| Metronome.OneBeatAtMeasureEnd | Atmel_Projects/GatorScribe/GatorScribe/DanLib/Recording/recording.c:137-141 | A tick raises `one_beat` exactly when it leaves the last sixteenth of the measure |
| Metronome.OneBeatOncePerMeasure | Atmel_Projects/GatorScribe/GatorScribe/DanLib/Recording/recording.c:137-141 | From the session start, `one_beat` is up after tick k exactly when `k % (4*beats) == 1`: once per measure, not once per quarter |
| Metronome.OneBeatCountInFirstMeasure | Atmel_Projects/GatorScribe/GatorScribe/DanLib/Recording/recording.c:137-141 | Over the first `4*beats` ticks of a session `one_beat` fires exactly once |
| Metronome.UpBeatOnOffBeats | Atmel_Projects/GatorScribe/GatorScribe/DanLib/Recording/recording.c:150-154 | From the session start, `up_beat` is up after tick k exactly when `k % 4 == 3`, the tick whose sixteenth counter was 2 before it |
| Metronome.MetronomeStaysOn | Atmel_Projects/GatorScribe/GatorScribe/DanLib/Recording/recording.c:128-154 | Once `metronome_on` is set no number of ticks clears it |
| Metronome.MetronomeOnFromFirstTick | Atmel_Projects/GatorScribe/GatorScribe/DanLib/Recording/recording.c:132-154 | From the session start, `metronome_on` is set after tick k exactly when k >= 1 |
| Metronome.BufferRolesAlternate | Atmel_Projects/GatorScribe/GatorScribe/DanLib/Recording/recording.c:114-125 | After n ticks the mode is the start mode exactly when n is even, the process buffer is the ping buffer exactly when the start mode's parity matches n, and the fill buffer is always the other one |
| Metronome.TwoTicksRestoreRoles | Atmel_Projects/GatorScribe/GatorScribe/DanLib/Recording/recording.c:114-125 | Two ticks restore the buffer roles and the mode |
| Session.BeatsPerMeasure | Atmel_Projects/GatorScribe/GatorScribe/DanLib/Recording/recording.c:180-188 | 4/4 gives 4, 3/4 gives 3, 2/4 gives 2 and every other identifier gives 6, each in both directions |
| Session.TimerCount | Atmel_Projects/GatorScribe/GatorScribe/DanLib/Recording/recording.c:196 | The timer count `32768*15/bpm` for a non-zero bpm is at most 491520 and fits 32 bits |
| Session.TimerCountIsSixteenth | Atmel_Projects/GatorScribe/GatorScribe/DanLib/Recording/recording.c:196 | The count is the whole number of slow-clock periods in a sixteenth: `count*bpm <= 32768*15 < (count+1)*bpm` |
| Session.PreRollEndsOnDownbeat | Atmel_Projects/GatorScribe/GatorScribe/DanLib/Recording/recording.c:190-204 | After the `4*beats + 1` count-in ticks from the session start, the counters stand at sixteenth 1 of beat 1, `one_beat` is up, `up_beat` is down and the metronome is on |
| Session.CountInCounters | Atmel_Projects/GatorScribe/GatorScribe/DanLib/Recording/recording.c:198-204 | After the count-in both counters are 1 |
| Session.CountInFlags | Atmel_Projects/GatorScribe/GatorScribe/DanLib/Recording/recording.c:198-204 | After the count-in `one_beat` and `metronome_on` are up and `up_beat` is down |
| Segmentation.Slot | Atmel_Projects/GatorScribe/GatorScribe/DanLib/Recording/recording.c:163-164 | `k & NOTE_MASK` is a slot of the 128-slot ring, and is k itself for 0 <= k < 128 |
| Segmentation.SlotsOfRecentSlicesDiffer | Atmel_Projects/GatorScribe/GatorScribe/DanLib/Recording/recording.c:163-165 | Slices less than 128 apart use different slots, and slice -1 uses slot 127 |
| Segmentation.SliceEmitsExactlyOnOnset | Atmel_Projects/GatorScribe/GatorScribe/DanLib/Recording/recording.c:215-229 | Slice 0 emits nothing; for slice k >= 1, on an onset (pitch differs or loudness above 1.05 times) the event {previous note, 64, rhythm} is appended and the rhythm restarts at 1, otherwise nothing is appended and the rhythm grows by 1 |
| Segmentation.SegmentSnoc | Atmel_Projects/GatorScribe/GatorScribe/DanLib/Recording/recording.c:215-229 | Segmenting slice k >= 1 advances the state by slices k-1 and k; slice 0 leaves it unchanged |
| Segmentation.AtMostOneEventPerSlice | Atmel_Projects/GatorScribe/GatorScribe/DanLib/Recording/recording.c:217-222 | One more slice keeps the events emitted so far as a prefix and appends at most one |
| Segmentation.SegmentExpands | Atmel_Projects/GatorScribe/GatorScribe/DanLib/Recording/recording.c:215-230 | The emitted events played out one note per sixteenth, followed by the pending note for its rhythm, are exactly the slices' note numbers |
| Segmentation.ExpandLength | Atmel_Projects/GatorScribe/GatorScribe/DanLib/Recording/recording.c:219-227 | Events played out last as many sixteenths as their rhythms add up to |
| Segmentation.TranscriptionExpands | Atmel_Projects/GatorScribe/GatorScribe/DanLib/Recording/recording.c:215-244 | The flushed transcription played out one note per sixteenth is exactly the slices' note numbers |
| Segmentation.RhythmConservation | Atmel_Projects/GatorScribe/GatorScribe/DanLib/Recording/recording.c:177-244 | Emitted rhythms plus the pending rhythm add up to max(number of slices, 1) sixteenths, and so do the rhythms of the flushed transcription |
| Segmentation.RhythmsArePositive | Atmel_Projects/GatorScribe/GatorScribe/DanLib/Recording/recording.c:219-227 | The pending rhythm and every emitted rhythm are at least one sixteenth, and every event has velocity 64 |
| Segmentation.EventCountBound | Atmel_Projects/GatorScribe/GatorScribe/DanLib/Recording/recording.c:215-230 | n slices emit at most n-1 events |
| Segmentation.SustainedNoteIsOneEvent | Atmel_Projects/GatorScribe/GatorScribe/DanLib/Recording/recording.c:215-244 | A note held without an onset emits nothing, and its transcription is one event of the first slice's note lasting one sixteenth per slice |
| Segmentation.EveryOnsetEmits | Atmel_Projects/GatorScribe/GatorScribe/DanLib/Recording/recording.c:215-224 | When every slice is an onset, every slice but the last becomes its own one-sixteenth event, in order |
| Segmentation.OnsetThresholdIsStrict | Atmel_Projects/GatorScribe/GatorScribe/DanLib/Recording/recording.c:217 | Exactly 5% louder is no onset, 6% louder is one, and a changed pitch is one |
| Segmentation.RingAfter | Atmel_Projects/GatorScribe/GatorScribe/DanLib/Recording/recording.c:209 | Writing slice k to slot `k & 127` for every k keeps the ring at 128 slots |
| Segmentation.RingHoldsRecentSlices | Atmel_Projects/GatorScribe/GatorScribe/DanLib/Recording/recording.c:209-217 | After the slices, each of the last 128 is in its own slot, and the slots no slice has reached still hold what the session found there |
| Segmentation.RingAfterSnoc | Atmel_Projects/GatorScribe/GatorScribe/DanLib/Recording/recording.c:209-217 | Writing slice k changes only slot `k & 127`, and slot `(k-1) & 127` then holds slice k-1 |
| Segmentation.FlushReadsLastNote | Atmel_Projects/GatorScribe/GatorScribe/DanLib/Recording/recording.c:240-241 | The slot the flush reads, `(n-1) & 127`, holds the last slice's note, or slot 127's stale note when no slice was segmented |
| Segmentation.WrittenRunLength | Atmel_Projects/GatorScribe/GatorScribe/DanLib/Recording/recording.c:205 | The loop as written segments slices until its guard `recording \|\| count == MAX_NUM_EVENTS-1` fails or the slices run out |
| Segmentation.WrittenGuardHeldThroughout | Atmel_Projects/GatorScribe/GatorScribe/DanLib/Recording/recording.c:205 | The guard as written held before every slice the loop segmented |
| Segmentation.CeilingRunLength | Atmel_Projects/GatorScribe/GatorScribe/DanLib/Recording/recording.c:205 | The loop with the intended guard segments slices until the guard fails or they run out, and never past the stop gesture |
| Segmentation.CeilingGuardHeldThroughout | Atmel_Projects/GatorScribe/GatorScribe/DanLib/Recording/recording.c:205 | The intended guard held before every slice the loop segmented |
| Segmentation.GuardAsWrittenOverflows | Atmel_Projects/GatorScribe/GatorScribe/DanLib/Recording/recording.c:205-244 | With MAX_NUM_EVENTS+1 slices that each change note, the loop as written segments them all and emits MAX_NUM_EVENTS events, so the flush writes one past an array of MAX_NUM_EVENTS |
| Segmentation.SustainKeepsEvents | Atmel_Projects/GatorScribe/GatorScribe/DanLib/Recording/recording.c:225-228 | Slices without an onset leave the emitted events unchanged |
| Segmentation.GuardAsWrittenIgnoresStop | Atmel_Projects/GatorScribe/GatorScribe/DanLib/Recording/recording.c:205-233 | When the stop gesture comes with exactly MAX_NUM_EVENTS-1 events and the note is then held, the loop as written consumes every slice offered and its guard still holds |
| Segmentation.CeilingFrom | Atmel_Projects/GatorScribe/GatorScribe/DanLib/Recording/recording.c:205-233 | From any point with at most MAX_NUM_EVENTS-1 events, the loop with the intended guard stops with at most MAX_NUM_EVENTS-1 events |
| Segmentation.CeilingBoundsEvents | Atmel_Projects/GatorScribe/GatorScribe/DanLib/Recording/recording.c:205-244 | With the intended guard the loop stops by the stop gesture with at most MAX_NUM_EVENTS-1 events, so the flushed transcription fits MAX_NUM_EVENTS |
| Segmentation.CeilingHonoursStop | Atmel_Projects/GatorScribe/GatorScribe/DanLib/Recording/recording.c:205 | With the intended guard the stop gesture always ends the loop |
| Recording.Recorder.constructor | Atmel_Projects/GatorScribe/GatorScribe/DanLib/Recording/recording.c:22-34 | Static state starts zeroed and idle, with the ring zeroed, the buffer mode given, and the first buffer processed and the second filled |
| Recording.Recorder.Tick | Atmel_Projects/GatorScribe/GatorScribe/DanLib/Recording/recording.c:104-158 | The interrupt's new clock state is `TickStep` of the old one, the buffers take the roles the old mode gives, the ready flag is raised and the session state is untouched |
| Recording.Recorder.StopGesture | Atmel_Projects/GatorScribe/GatorScribe/DanLib/Recording/recording.c:40-45 | The touch handler clears `recording` and nothing else |
| Recording.Recorder.BeginSession | Atmel_Projects/GatorScribe/GatorScribe/DanLib/Recording/recording.c:173-196 | Setup leaves the beats of the time signature, recording on, the timer count for the bpm, and the clock at `SessionStart` of the old one, with the buffers and the ready flag untouched |
| Recording.Recorder.CountIn | Atmel_Projects/GatorScribe/GatorScribe/DanLib/Recording/recording.c:198-204 | The count-in leaves the clock exactly `4*beats + 1` ticks on, with no slice pending and the session state untouched |
| Recording.Recorder.ConsumeSlice | Atmel_Projects/GatorScribe/GatorScribe/DanLib/Recording/recording.c:207-231 | One slice writes only its ring slot, writes at most `events[numberOfEvents]` and only on an onset (otherwise `events` is unchanged), and advances the segmentation state by `Advance` of the previous slot's note and the estimate |
| Recording.Recorder.SlicePeriod | Atmel_Projects/GatorScribe/GatorScribe/DanLib/Recording/recording.c:205-233 | One loop pass extends the ring and the segmentation state by slice k, advances the clock one tick, leaves `recording` true exactly while the stop gesture has not come, and leaves the events past the new count unchanged |
| Recording.Recorder.Finish | Atmel_Projects/GatorScribe/GatorScribe/DanLib/Recording/recording.c:234-244 | The teardown stops recording and the metronome, and the events written are exactly the transcription of the slices segmented, one more than before; the ring and the events past the new count are unchanged |
| Recording.Recorder.SegmentAsWritten | Atmel_Projects/GatorScribe/GatorScribe/DanLib/Recording/recording.c:205-233 | The loop as written segments `WrittenRunLength` slices; the ring, events and rhythm are those of the slices segmented, the events past the count are unchanged, and the clock is that many ticks further on |
| Recording.Recorder.SegmentWithCeiling | Atmel_Projects/GatorScribe/GatorScribe/DanLib/Recording/recording.c:205-233 | The loop with the intended guard segments `CeilingRunLength` slices with at most MAX_NUM_EVENTS-1 events; ring, events, rhythm and clock as for the loop as written |
| Recording.Recorder.Prepare | Atmel_Projects/GatorScribe/GatorScribe/DanLib/Recording/recording.c:173-204 | Setup and count-in leave the beats and timer count of the arguments, no slice pending, and the clock `4*beats + 1` ticks past `SessionStart` |
| Recording.Recorder.RunAsWritten | Atmel_Projects/GatorScribe/GatorScribe/DanLib/Recording/recording.c:205-244 | The loop as written and, once its guard fails, the flush: the events are the transcription of the slices segmented, or the events emitted so far if the slices ran out first; the ring holds the slices segmented over its old contents, and the events past the count are unchanged |
| Recording.Recorder.RunWithCeiling | Atmel_Projects/GatorScribe/GatorScribe/DanLib/Recording/recording.c:205-244 | As RunAsWritten with the intended guard, and the events never exceed MAX_NUM_EVENTS |
| Recording.Recorder.StartRecording | Atmel_Projects/GatorScribe/GatorScribe/DanLib/Recording/recording.c:166-245 | A whole session as written: the number of slices segmented, whether the session finished, the events (the transcription when finished) and the final clock, the ring left for the next session (the slices segmented written over the old ring), the events past the count unchanged, all in terms of the inputs |
| Recording.Recorder.StartRecordingWithCeiling | Atmel_Projects/GatorScribe/GatorScribe/DanLib/Recording/recording.c:166-245 | A whole session with the intended guard: as StartRecording, and the transcription fits an events array of MAX_NUM_EVENTS whatever the number of slices |

## Left out

- Timer configuration is not modelled: `configure_rtt`, its busy-wait for a clock edge, the NVIC and `rtt_*` calls and the disabling of the interrupt at the end (recording.c:57-74, 236). This is hardware register access. The count handed to the timer is kept in the field `rttCount`.
- Only the timer-increment case of `RTT_Handler` is modelled. Other status bits do nothing in the source, so `Tick` is that case.
- The touch panel is not modelled: `configure_lcd_interrupt`, the PIO calls and `touch_handler` (recording.c:40-45, 76-94, 238). Their only effect on the module's state is `recording := false`, which is `StopGesture`. The call at recording.c:90 is made at the start of `BeginSession`.
- The pitch detector is not modelled: `new_aubio_pitchyinfast`, `get_midi_note` and `del_aubio_pitchyinfast` (recording.c:172, 209, 237). These are foreign DSP calls on float audio. Their estimates are the input sequence `slices`. The contents of the ping/pong sample buffers are not modelled; only which buffer plays which role is.
- Interrupt concurrency is not modelled. Every main-loop pass is one tick followed by one consumed slice, so overruns (a tick arriving before the previous slice is consumed) cannot happen in the model. The stop gesture is an input, `stopAt`: it comes after that many slices. `start_recording` never clears `note_16_received` (recording.c:176-195), so a tick between the loop's exit and the disabling of the interrupt (recording.c:233-236) would leave the flag set and make the next count-in one tick short; `StartRecording` and `StartRecordingWithCeiling` assume it clear through `Idle()`.
- The input is finite. If the slices run out while the loop's guard still holds, `RunAsWritten`, `RunWithCeiling`, `StartRecording` and `StartRecordingWithCeiling` return `finished == false` and do not flush. The device would keep waiting for slices.
- Floating point is not modelled. `current_rhythm` is a whole number of sixteenths, and loudness is an exact `real`, so `1.05 * velocity` is exact. Rounding in the float rhythm sum over very long notes is not captured.
- `note_cnt` is an `int` and is unbounded here. Its overflow after 2^31 slices is not modelled.
- `psola.h` holds only declarations and float constants of the pitch shifter and is not part of this model.
- The unused arguments of `start_recording` (instrument, key signature, title) and the file-scope `time_sig` copy are not modelled.
- Recording.Recorder.StartRecording: requires an events array longer than the number of slices played. The code does not check this; the loop as written has no other bound on the writes at recording.c:219 and 241 (see Findings). The stop gesture may come at any point, or not within the slices at all.
- Recording.Recorder.constructor: `processBuffer`, `fillBuffer` and `processPingMode` are declared and initialised by the audio driver, outside recording.c. The constructor takes the two buffers and the mode as parameters. It assumes the first buffer starts as the one processed and the second as the one filled.
- Session.TimerCount: takes `bpm` as an unbounded natural and requires it non-zero. The source divides by `bpm` unchecked, and a zero divisor has no defined result. The callers require it below 2^32, as the `uint32_t` parameter is.

## Findings

| source | as written | input that shows it | evidently intended | confidence | as-written member | corrected member |
|---|---|---|---|---|---|---|
| Atmel_Projects/GatorScribe/GatorScribe/DanLib/Recording/recording.c:205 | `while(recording \|\| *number_of_events == MAX_NUM_EVENTS-1)` keeps looping while the count equals MAX_NUM_EVENTS-1 and is no ceiling, so the writes at lines 219 and 241 are unchecked | MAX_NUM_EVENTS+1 slices, each with a different note, with the stop gesture after the last: the loop emits MAX_NUM_EVENTS events and the flush writes `events[MAX_NUM_EVENTS]` | `while(recording && *number_of_events < MAX_NUM_EVENTS-1)`: stop at the gesture or at MAX_NUM_EVENTS-1 events, so that the flushed transcription fits | not executed | Segmentation.GuardAsWrittenOverflows | Segmentation.CeilingBoundsEvents |
| Atmel_Projects/GatorScribe/GatorScribe/DanLib/Recording/recording.c:205 | the same guard ignores the stop gesture once the count is exactly MAX_NUM_EVENTS-1 | the gesture comes after MAX_NUM_EVENTS-1 events and the performer keeps holding the note: the loop consumes every further slice and never stops | the gesture always ends the session | not executed | Segmentation.GuardAsWrittenIgnoresStop | Segmentation.CeilingHonoursStop |

The rest of the model uses the corrected guard through `Recording.Recorder.StartRecordingWithCeiling`.
`Recording.Recorder.StartRecording` keeps the guard as written.
