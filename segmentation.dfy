/** Note segmentation and rhythm quantisation of start_recording, stated on values: the
    per-slice pitch estimates become MIDI events, one per maximal run of a sustained note.
    Also the note history ring the estimates are written to, and how many slices the main
    loop consumes under its guard as written and under the intended ceiling guard. */
module Segmentation {

  /** Slots in the note history ring (a power of two, indexed with `k & (NoteBufSize-1)`). */
  const NoteBufSize: nat := 128

  /** A ring entry: the pitch detector's estimate for one slice (note number, loudness). */
  datatype MidiNote = MidiNote(noteNumber: int, velocity: real)

  /** An output event; `rhythm` counts sixteenth notes (a rhythm of 0.25 is 1 here). */
  datatype MidiEvent = MidiEvent(noteNumber: int, velocity: int, rhythm: nat)

  /** Every event is emitted with this fixed velocity. */
  const EventVelocity: int := 64

  /** The ring slot of slice `k`: `k & (NoteBufSize-1)` on a two's-complement int, which is
      the non-negative remainder of `k` modulo the ring size. */
  function Slot(k: int): (i: nat)
    ensures i < NoteBufSize
    ensures 0 <= k < NoteBufSize ==> i == k
  {
    k % 128
  }

  /** Slices less than a ring length apart occupy different slots; slice -1's slot is 127. */
  lemma SlotsOfRecentSlicesDiffer(j: int, k: int)
    requires j < k < j + NoteBufSize
    ensures Slot(j) != Slot(k)
    ensures Slot(-1) == NoteBufSize - 1
  {
  }

  /** Slice `cur` re-articulates after slice `prev`: the pitch differs, or the loudness rose by
      more than 5%. */
  predicate IsOnset(prev: MidiNote, cur: MidiNote)
  {
    cur.noteNumber != prev.noteNumber || cur.velocity > 1.05 * prev.velocity
  }

  /** Segmentation state: the events emitted so far and the rhythm of the pending note. */
  datatype Seg = Seg(events: seq<MidiEvent>, rhythm: nat)

  /** One slice after the first: on an onset the pending (previous) note is emitted with the
      accumulated rhythm and the rhythm restarts at one sixteenth; otherwise the pending note
      grows by one sixteenth. */
  function Advance(s: Seg, prev: MidiNote, cur: MidiNote): Seg
  {
    if IsOnset(prev, cur) then Seg(s.events + [MidiEvent(prev.noteNumber, EventVelocity, s.rhythm)], 1)
    else Seg(s.events, s.rhythm + 1)
  }

  /** The segmentation state after the given slices; the first slice emits nothing. */
  function Segment(slices: seq<MidiNote>): Seg
  {
    if |slices| <= 1 then Seg([], 1)
    else Advance(Segment(slices[..|slices| - 1]), slices[|slices| - 2], slices[|slices| - 1])
  }

  /** The note the final flush emits: ring slot `(n-1) & 127`, which holds the last slice, or,
      when no slice was segmented, `stale`, whatever slot 127 held when the session began. */
  function LastNote(slices: seq<MidiNote>, stale: MidiNote): int
  {
    if |slices| == 0 then stale.noteNumber else slices[|slices| - 1].noteNumber
  }

  /** The complete output of a session that segmented `slices`: the emitted events followed by
      the flushed pending note. */
  function Transcription(slices: seq<MidiNote>, stale: MidiNote): seq<MidiEvent>
  {
    var s := Segment(slices);
    s.events + [MidiEvent(LastNote(slices, stale), EventVelocity, s.rhythm)]
  }

  // ---------------------------------------------------------------------------------------
  // A reference reading of the events: one note number per sixteenth

  function NoteNumbers(slices: seq<MidiNote>): (notes: seq<int>)
    ensures |notes| == |slices|
    ensures forall i :: 0 <= i < |slices| ==> notes[i] == slices[i].noteNumber
  {
    seq(|slices|, i requires 0 <= i < |slices| => slices[i].noteNumber)
  }

  function Repeat(x: int, n: nat): seq<int>
  {
    seq(n, _ => x)
  }

  /** Each event played out as its note repeated once per sixteenth of its rhythm. */
  function Expand(events: seq<MidiEvent>): seq<int>
  {
    if events == [] then []
    else
      var e := events[|events| - 1];
      Expand(events[..|events| - 1]) + Repeat(e.noteNumber, e.rhythm)
  }

  function TotalRhythm(events: seq<MidiEvent>): nat
  {
    if events == [] then 0 else TotalRhythm(events[..|events| - 1]) + events[|events| - 1].rhythm
  }

  // ---------------------------------------------------------------------------------------
  // Properties of segmentation

  /** Slice 0 never emits. For slice k >= 1, an event carrying slice k-1's note, velocity 64
      and the accumulated rhythm is appended and the rhythm restarts at one sixteenth exactly
      on an onset; otherwise nothing is appended and the rhythm grows by one sixteenth. */
  lemma SliceEmitsExactlyOnOnset(slices: seq<MidiNote>, k: nat)
    requires k < |slices|
    ensures k == 0 ==> Segment(slices[..k + 1]) == Seg([], 1)
    ensures 1 <= k ==>
      var before, after := Segment(slices[..k]), Segment(slices[..k + 1]);
      && (IsOnset(slices[k - 1], slices[k]) ==>
            after == Seg(before.events + [MidiEvent(slices[k - 1].noteNumber, EventVelocity, before.rhythm)], 1))
      && (!IsOnset(slices[k - 1], slices[k]) ==> after == Seg(before.events, before.rhythm + 1))
  {
    if 1 <= k {
      assert slices[..k + 1][..k] == slices[..k];
    }
  }

  /** Segmenting slice k >= 1 advances the state by that slice and the one before it. */
  lemma SegmentSnoc(slices: seq<MidiNote>, k: nat)
    requires k < |slices|
    ensures k == 0 ==> Segment(slices[..k + 1]) == Segment(slices[..k])
    ensures 1 <= k ==> Segment(slices[..k + 1]) == Advance(Segment(slices[..k]), slices[k - 1], slices[k])
  {
    var longer := slices[..k + 1];
    assert longer[..k] == slices[..k];
    if 1 <= k {
      assert longer[k - 1] == slices[k - 1] && longer[k] == slices[k];
    }
  }

  /** Segmenting one more slice appends at most one event. */
  lemma AtMostOneEventPerSlice(slices: seq<MidiNote>, k: nat)
    requires k < |slices|
    ensures Segment(slices[..k]).events <= Segment(slices[..k + 1]).events
    ensures |Segment(slices[..k + 1]).events| <= |Segment(slices[..k]).events| + 1
  {
    SliceEmitsExactlyOnOnset(slices, k);
    if k == 0 {
      assert slices[..k] == [];
    }
  }

  lemma {:induction false} RepeatSnoc(x: int, n: nat)
    ensures Repeat(x, n + 1) == Repeat(x, n) + [x]
  {
  }

  /** An onset emits the pending note with its rhythm and starts a one-sixteenth note: the
      playing out grows by the new slice's note. */
  lemma OnsetKeepsExpansion(s: Seg, prev: int, last: int, played: seq<int>)
    requires Expand(s.events) + Repeat(prev, s.rhythm) == played
    ensures Expand(s.events + [MidiEvent(prev, EventVelocity, s.rhythm)]) + Repeat(last, 1) == played + [last]
  {
    var e := MidiEvent(prev, EventVelocity, s.rhythm);
    assert (s.events + [e])[..|s.events|] == s.events;
    assert Expand(s.events + [e]) == played;
    assert Repeat(last, 1) == [last];
  }

  /** A sustained note grows by one sixteenth: the playing out grows by that note. */
  lemma SustainKeepsExpansion(s: Seg, prev: int, played: seq<int>)
    requires Expand(s.events) + Repeat(prev, s.rhythm) == played
    ensures Expand(s.events) + Repeat(prev, s.rhythm + 1) == played + [prev]
  {
    RepeatSnoc(prev, s.rhythm);
    assert Expand(s.events) + (Repeat(prev, s.rhythm) + [prev]) == (Expand(s.events) + Repeat(prev, s.rhythm)) + [prev];
  }

  lemma NoteNumbersSnoc(slices: seq<MidiNote>)
    requires 1 <= |slices|
    ensures NoteNumbers(slices) == NoteNumbers(slices[..|slices| - 1]) + [slices[|slices| - 1].noteNumber]
  {
  }

  /** Playing out the emitted events followed by the pending note gives back the detected note
      of every slice, in order: segmentation loses no sixteenth and invents none. */
  lemma {:induction false} SegmentExpands(slices: seq<MidiNote>)
    requires 1 <= |slices|
    ensures Expand(Segment(slices).events) + Repeat(slices[|slices| - 1].noteNumber, Segment(slices).rhythm)
            == NoteNumbers(slices)
  {
    var n := |slices|;
    if n == 1 {
      assert Repeat(slices[0].noteNumber, 1) == [slices[0].noteNumber];
    } else {
      var init := slices[..n - 1];
      var prev, cur := slices[n - 2], slices[n - 1];
      SegmentExpands(init);
      assert init[|init| - 1] == prev;
      assert Segment(slices) == Advance(Segment(init), prev, cur);
      NoteNumbersSnoc(slices);
      if IsOnset(prev, cur) {
        OnsetKeepsExpansion(Segment(init), prev.noteNumber, cur.noteNumber, NoteNumbers(init));
      } else {
        SustainKeepsExpansion(Segment(init), prev.noteNumber, NoteNumbers(init));
      }
    }
  }

  lemma {:induction false} ExpandLength(events: seq<MidiEvent>)
    ensures |Expand(events)| == TotalRhythm(events)
  {
    if events != [] {
      ExpandLength(events[..|events| - 1]);
    }
  }

  /** The whole transcription, played out one note per sixteenth, is exactly the sequence of
      detected notes of the segmented slices. */
  lemma TranscriptionExpands(slices: seq<MidiNote>, stale: MidiNote)
    requires 1 <= |slices|
    ensures Expand(Transcription(slices, stale)) == NoteNumbers(slices)
  {
    var t := Transcription(slices, stale);
    assert t[..|t| - 1] == Segment(slices).events;
    SegmentExpands(slices);
  }

  /** Rhythm conservation: the emitted rhythms plus the pending rhythm add up to one sixteenth
      per segmented slice (one sixteenth when none was), and so does the flushed transcription. */
  lemma {:induction false} RhythmConservation(slices: seq<MidiNote>, stale: MidiNote)
    ensures TotalRhythm(Segment(slices).events) + Segment(slices).rhythm == if |slices| == 0 then 1 else |slices|
    ensures TotalRhythm(Transcription(slices, stale)) == if |slices| == 0 then 1 else |slices|
  {
    var t := Transcription(slices, stale);
    assert t[..|t| - 1] == Segment(slices).events;
    if |slices| > 0 {
      SegmentExpands(slices);
      ExpandLength(Segment(slices).events);
    }
  }

  /** Every emitted rhythm, and the pending one, is a positive number of sixteenths, and
      every event carries velocity 64. */
  lemma {:induction false} RhythmsArePositive(slices: seq<MidiNote>)
    ensures 1 <= Segment(slices).rhythm
    ensures forall i :: 0 <= i < |Segment(slices).events| ==>
      1 <= Segment(slices).events[i].rhythm && Segment(slices).events[i].velocity == EventVelocity
  {
    if |slices| > 1 {
      RhythmsArePositive(slices[..|slices| - 1]);
    }
  }

  /** At most one event per slice after the first. */
  lemma {:induction false} EventCountBound(slices: seq<MidiNote>)
    ensures |Segment(slices).events| + 1 <= if |slices| == 0 then 1 else |slices|
  {
    if |slices| > 1 {
      EventCountBound(slices[..|slices| - 1]);
    }
  }

  /** A note held without a re-articulation yields a single event whose rhythm is the number
      of slices (five slices of note 60 give one event of 1.25). */
  lemma {:induction false} SustainedNoteIsOneEvent(slices: seq<MidiNote>, stale: MidiNote)
    requires 1 <= |slices|
    requires forall k :: 1 <= k < |slices| ==> !IsOnset(slices[k - 1], slices[k])
    ensures Segment(slices) == Seg([], |slices|)
    ensures Transcription(slices, stale) == [MidiEvent(slices[0].noteNumber, EventVelocity, |slices|)]
  {
    var n := |slices|;
    if n > 1 {
      var init := slices[..n - 1];
      SustainedNoteIsOneEvent(init, stale);
      assert init[0] == slices[0] && init[n - 2] == slices[n - 2];
      assert Transcription(init, stale)[0].noteNumber == slices[n - 2].noteNumber;
      assert !IsOnset(slices[n - 2], slices[n - 1]);
    }
  }

  /** When every slice re-articulates, every slice but the last becomes its own one-sixteenth
      event, in order. */
  lemma {:induction false} EveryOnsetEmits(slices: seq<MidiNote>)
    requires 1 <= |slices|
    requires forall k :: 1 <= k < |slices| ==> IsOnset(slices[k - 1], slices[k])
    ensures |Segment(slices).events| == |slices| - 1 && Segment(slices).rhythm == 1
    ensures forall i :: 0 <= i < |slices| - 1 ==>
      Segment(slices).events[i] == MidiEvent(slices[i].noteNumber, EventVelocity, 1)
  {
    var n := |slices|;
    if n > 1 {
      EveryOnsetEmits(slices[..n - 1]);
      assert IsOnset(slices[n - 2], slices[n - 1]);
    }
  }

  /** The onset threshold is strict: exactly 5% louder is a sustain, 6% louder an onset. */
  lemma OnsetThresholdIsStrict()
    ensures !IsOnset(MidiNote(60, 1.0), MidiNote(60, 1.05))
    ensures IsOnset(MidiNote(60, 1.0), MidiNote(60, 1.06))
    ensures IsOnset(MidiNote(60, 1.0), MidiNote(64, 1.0))
  {
  }

  // ---------------------------------------------------------------------------------------
  // The note history ring

  /** The ring after slice k has been written to slot `k & 127`, for every k in order. */
  function RingAfter(ring0: seq<MidiNote>, slices: seq<MidiNote>): (ring: seq<MidiNote>)
    requires |ring0| == NoteBufSize
    ensures |ring| == NoteBufSize
  {
    if |slices| == 0 then ring0
    else RingAfter(ring0, slices[..|slices| - 1])[Slot(|slices| - 1) := slices[|slices| - 1]]
  }

  /** The ring holds the last 128 slices, each in its own slot, and the slots no slice has
      reached yet still hold what the session found there. */
  lemma {:induction false} RingHoldsRecentSlices(ring0: seq<MidiNote>, slices: seq<MidiNote>)
    requires |ring0| == NoteBufSize
    ensures forall j :: 0 <= j < |slices| && |slices| - j <= NoteBufSize ==>
      RingAfter(ring0, slices)[Slot(j)] == slices[j]
    ensures forall i :: |slices| <= i < NoteBufSize ==> RingAfter(ring0, slices)[i] == ring0[i]
  {
    var n := |slices|;
    if n > 0 {
      var init := slices[..n - 1];
      RingHoldsRecentSlices(ring0, init);
      var prev := RingAfter(ring0, init);
      assert RingAfter(ring0, slices) == prev[Slot(n - 1) := slices[n - 1]];
      forall j | 0 <= j < n - 1 && n - j <= NoteBufSize
        ensures RingAfter(ring0, slices)[Slot(j)] == slices[j]
      {
        SlotsOfRecentSlicesDiffer(j, n - 1);
        assert prev[Slot(j)] == init[j] == slices[j];
      }
      forall i | n <= i < NoteBufSize
        ensures RingAfter(ring0, slices)[i] == ring0[i]
      {
        assert Slot(n - 1) == n - 1;
        assert prev[i] == ring0[i];
      }
    }
  }

  /** Slice k goes to its slot, and the slot before it holds slice k-1. */
  lemma RingAfterSnoc(ring0: seq<MidiNote>, slices: seq<MidiNote>, k: nat)
    requires |ring0| == NoteBufSize && k < |slices|
    ensures RingAfter(ring0, slices[..k + 1]) == RingAfter(ring0, slices[..k])[Slot(k) := slices[k]]
    ensures 1 <= k ==> RingAfter(ring0, slices[..k])[Slot(k - 1)] == slices[k - 1]
  {
    var longer := slices[..k + 1];
    assert longer[..k] == slices[..k];
    assert longer[k] == slices[k];
    if 1 <= k {
      RingHoldsRecentSlices(ring0, slices[..k]);
      assert slices[..k][k - 1] == slices[k - 1];
    }
  }

  /** The slot the flush reads, `(n-1) & 127`, holds the note `LastNote` names. */
  lemma {:induction false} FlushReadsLastNote(ring0: seq<MidiNote>, slices: seq<MidiNote>)
    requires |ring0| == NoteBufSize
    ensures RingAfter(ring0, slices)[Slot(|slices| - 1)].noteNumber == LastNote(slices, ring0[NoteBufSize - 1])
  {
    RingHoldsRecentSlices(ring0, slices);
  }

  // ---------------------------------------------------------------------------------------
  // How many slices the main loop segments

  /** The main loop's guard as written, before segmenting slice k: still recording (the stop
      gesture comes after `stopAt` slices) or the event count equals MAX_NUM_EVENTS-1. */
  predicate WrittenGuard(slices: seq<MidiNote>, stopAt: nat, maxEvents: nat, k: nat)
    requires k <= |slices|
  {
    k < stopAt || |Segment(slices[..k]).events| == maxEvents - 1
  }

  /** The number of slices the loop as written segments, starting from slice k, within the
      slices available: the first count at which its guard fails, or all of them. */
  function WrittenRunLength(slices: seq<MidiNote>, stopAt: nat, maxEvents: nat, k: nat): (n: nat)
    requires k <= |slices|
    ensures k <= n <= |slices|
    ensures n == |slices| || !WrittenGuard(slices, stopAt, maxEvents, n)
    decreases |slices| - k
  {
    if k == |slices| || !WrittenGuard(slices, stopAt, maxEvents, k) then k
    else WrittenRunLength(slices, stopAt, maxEvents, k + 1)
  }

  /** The guard evidently intended: recording, and fewer than MAX_NUM_EVENTS-1 events. */
  predicate CeilingGuard(slices: seq<MidiNote>, stopAt: nat, maxEvents: nat, k: nat)
    requires k <= |slices|
  {
    k < stopAt && |Segment(slices[..k]).events| < maxEvents - 1
  }

  /** The number of slices the loop with the intended guard segments, starting from slice k. */
  function CeilingRunLength(slices: seq<MidiNote>, stopAt: nat, maxEvents: nat, k: nat): (n: nat)
    requires k <= |slices|
    ensures k <= n <= |slices|
    ensures n == |slices| || !CeilingGuard(slices, stopAt, maxEvents, n)
    ensures k <= stopAt ==> n <= stopAt
    decreases |slices| - k
  {
    if k == |slices| || !CeilingGuard(slices, stopAt, maxEvents, k) then k
    else CeilingRunLength(slices, stopAt, maxEvents, k + 1)
  }

  /** The loop as written runs only while its guard holds: the guard held before every slice
      it segmented. */
  lemma {:induction false} WrittenGuardHeldThroughout(slices: seq<MidiNote>, stopAt: nat, maxEvents: nat, k: nat, j: nat)
    requires k <= |slices| && k <= j < WrittenRunLength(slices, stopAt, maxEvents, k)
    ensures WrittenGuard(slices, stopAt, maxEvents, j)
    decreases |slices| - k
  {
    if j > k {
      WrittenGuardHeldThroughout(slices, stopAt, maxEvents, k + 1, j);
    }
  }

  /** The loop with the intended guard runs only while its guard holds. */
  lemma {:induction false} CeilingGuardHeldThroughout(slices: seq<MidiNote>, stopAt: nat, maxEvents: nat, k: nat, j: nat)
    requires k <= |slices| && k <= j < CeilingRunLength(slices, stopAt, maxEvents, k)
    ensures CeilingGuard(slices, stopAt, maxEvents, j)
    decreases |slices| - k
  {
    if j > k {
      CeilingGuardHeldThroughout(slices, stopAt, maxEvents, k + 1, j);
    }
  }

  /** As written, the guard is no ceiling: with MAX_NUM_EVENTS+1 slices that each change note
      while recording, the loop segments all of them and emits MAX_NUM_EVENTS events, so the
      final flush writes event number MAX_NUM_EVENTS+1, one past an array of MAX_NUM_EVENTS. */
  lemma GuardAsWrittenOverflows(slices: seq<MidiNote>, maxEvents: nat)
    requires 1 <= maxEvents && |slices| == maxEvents + 1
    requires forall k :: 1 <= k < |slices| ==> IsOnset(slices[k - 1], slices[k])
    ensures WrittenRunLength(slices, |slices|, maxEvents, 0) == |slices|
    ensures |Segment(slices).events| == maxEvents
  {
    EveryOnsetEmits(slices);
    assert slices[..|slices|] == slices;
  }

  /** Segments without onsets keep the events unchanged. */
  lemma {:induction false} SustainKeepsEvents(slices: seq<MidiNote>, from: nat, k: nat)
    requires 1 <= from <= k <= |slices|
    requires forall j :: from <= j < k ==> !IsOnset(slices[j - 1], slices[j])
    ensures Segment(slices[..k]).events == Segment(slices[..from]).events
  {
    if k > from {
      SustainKeepsEvents(slices, from, k - 1);
      SliceEmitsExactlyOnOnset(slices, k - 1);
    }
  }

  /** As written, once the stop gesture has come with exactly MAX_NUM_EVENTS-1 events, the loop
      keeps segmenting for as long as the performer holds the note: it consumes every slice
      offered and its guard still holds afterwards, so the session never finishes. */
  lemma GuardAsWrittenIgnoresStop(slices: seq<MidiNote>, stopAt: nat, maxEvents: nat)
    requires 1 <= stopAt <= |slices|
    requires |Segment(slices[..stopAt]).events| == maxEvents - 1
    requires forall k :: stopAt <= k < |slices| ==> !IsOnset(slices[k - 1], slices[k])
    ensures WrittenRunLength(slices, stopAt, maxEvents, 0) == |slices|
    ensures WrittenGuard(slices, stopAt, maxEvents, |slices|)
  {
    forall k | stopAt <= k <= |slices|
      ensures WrittenGuard(slices, stopAt, maxEvents, k)
    {
      SustainKeepsEvents(slices, stopAt, k);
    }
  }

  lemma {:induction false} CeilingFrom(slices: seq<MidiNote>, stopAt: nat, maxEvents: nat, k: nat)
    requires k <= |slices|
    requires |Segment(slices[..k]).events| <= maxEvents - 1
    ensures |Segment(slices[..CeilingRunLength(slices, stopAt, maxEvents, k)]).events| <= maxEvents - 1
    decreases |slices| - k
  {
    if k < |slices| && CeilingGuard(slices, stopAt, maxEvents, k) {
      AtMostOneEventPerSlice(slices, k);
      CeilingFrom(slices, stopAt, maxEvents, k + 1);
    }
  }

  /** With the intended guard, the loop stops at the stop gesture or at MAX_NUM_EVENTS-1
      events, whichever comes first, so the flushed transcription has at most MAX_NUM_EVENTS
      events and fits the array. */
  lemma CeilingBoundsEvents(slices: seq<MidiNote>, stopAt: nat, maxEvents: nat, stale: MidiNote)
    requires 1 <= maxEvents
    ensures CeilingRunLength(slices, stopAt, maxEvents, 0) <= stopAt
    ensures |Segment(slices[..CeilingRunLength(slices, stopAt, maxEvents, 0)]).events| <= maxEvents - 1
    ensures |Transcription(slices[..CeilingRunLength(slices, stopAt, maxEvents, 0)], stale)| <= maxEvents
  {
    assert slices[..0] == [];
    CeilingFrom(slices, stopAt, maxEvents, 0);
  }

  /** With the intended guard the stop gesture always ends the session: when it comes within
      the slices played, the loop stops by then and its guard has failed. */
  lemma CeilingHonoursStop(slices: seq<MidiNote>, stopAt: nat, maxEvents: nat)
    requires stopAt <= |slices|
    ensures CeilingRunLength(slices, stopAt, maxEvents, 0) <= stopAt
    ensures !CeilingGuard(slices, stopAt, maxEvents, CeilingRunLength(slices, stopAt, maxEvents, 0))
  {
  }
}
