/** The metronome tick state machine: what the real-time timer interrupt does on every
    sixteenth note (RTT_Handler in Recording/recording.c), stated on values. */
module Metronome {

  /** An unsigned 8-bit value: the width of the tick counters. */
  type Byte = x: int | 0 <= x < 256

  /** Everything one tick reads or writes. `processIsPing` and `fillIsPing` say whether the
      buffer being processed and the buffer being filled are the ping buffer (otherwise the pong one). */
  datatype Clock = Clock(
    sixteenth: Byte,      // sixteenth_note_cnt
    beat: Byte,           // beat_cnt
    oneBeat: bool,        // one_beat
    upBeat: bool,         // up_beat
    metronomeOn: bool,    // metronome_on
    pingMode: bool,       // processPingMode
    processIsPing: bool,  // processBuffer == processPingBuffer
    fillIsPing: bool)     // fillBuffer == processPingBuffer

  /** One timer-increment interrupt (the RTTINC case of the handler). In order: the buffer roles
      swap according to the mode and the mode flips; the slice-ready flag rises; both pulses are
      cleared; then either the sixteenth counter was 4 (a quarter note has passed: metronome on,
      sixteenth back to 1, and the beat counter wraps to 1 raising `oneBeat` when it was at
      `beats`, else increments) or it was not (when it was 2: metronome on and `upBeat`), and it
      increments. Written field by field; every `++` is an 8-bit increment. */
  function TickStep(c: Clock, beats: Byte): Clock
  {
    var quarter := c.sixteenth == 4;
    Clock(
      sixteenth := if quarter then 1 else (c.sixteenth + 1) % 256,
      beat := if !quarter then c.beat else if c.beat == beats then 1 else (c.beat + 1) % 256,
      oneBeat := quarter && c.beat == beats,
      upBeat := !quarter && c.sixteenth == 2,
      metronomeOn := c.metronomeOn || quarter || c.sixteenth == 2,
      pingMode := !c.pingMode,
      processIsPing := c.pingMode,
      fillIsPing := !c.pingMode)
  }

  /** The clock after `n` ticks. */
  function Ticks(c: Clock, beats: Byte, n: nat): Clock
  {
    if n == 0 then c else TickStep(Ticks(c, beats, n - 1), beats)
  }

  /** The clock as a recording session leaves it just before the timer starts: the counters
      sit on the last sixteenth of the last beat and every pulse is off. */
  function SessionStart(c: Clock, beats: Byte): Clock
  {
    c.(sixteenth := 4, beat := beats, oneBeat := false, upBeat := false, metronomeOn := false)
  }

  /** Both counters lie in their musical ranges. */
  ghost predicate InRange(c: Clock, beats: Byte)
  {
    1 <= c.sixteenth <= 4 && 1 <= c.beat <= beats
  }

  /** The sixteenth-note position inside the measure, 0 .. 4*beats-1. */
  ghost function Position(c: Clock): int
  {
    (c.beat - 1) * 4 + (c.sixteenth - 1)
  }

  /** How often `oneBeat` is raised by ticks 1..n. */
  ghost function OneBeatCount(c: Clock, beats: Byte, n: nat): nat
  {
    if n == 0 then 0 else OneBeatCount(c, beats, n - 1) + (if Ticks(c, beats, n).oneBeat then 1 else 0)
  }

  // ---------------------------------------------------------------------------------------
  // One tick

  /** What each pulse of a tick means in musical time: from counters in range, `oneBeat` is
      up exactly when the tick lands on the downbeat of the measure, `upBeat` exactly when it
      lands on the "and" of a beat (the third sixteenth), and `metronomeOn` is set exactly when
      it was already or the tick lands on an eighth-note boundary. */
  lemma TickFlags(c: Clock, beats: Byte)
    requires InRange(c, beats)
    ensures var r := TickStep(c, beats);
      && (r.oneBeat <==> Position(r) == 0)
      && (r.upBeat <==> Position(r) % 4 == 2)
      && (r.metronomeOn <==> c.metronomeOn || Position(r) % 2 == 0)
  {
    TickCounters(c, beats);
  }

  /** From counters in range, a tick keeps them in range, the sixteenth counter follows
      4 -> 1 -> 2 -> 3 -> 4, the beat counter follows 1 -> ... -> beats -> 1 once per quarter,
      and the position in the measure advances by one sixteenth modulo the measure. */
  lemma TickCounters(c: Clock, beats: Byte)
    requires InRange(c, beats)
    ensures var r := TickStep(c, beats);
      && InRange(r, beats)
      && r.sixteenth == c.sixteenth % 4 + 1
      && r.beat == (if c.sixteenth == 4 then c.beat % beats + 1 else c.beat)
      && Position(r) == (if Position(c) == 4 * beats - 1 then 0 else Position(c) + 1)
  {
    if c.sixteenth == 4 {
      if c.beat == beats {
        ModUnique(c.beat, beats, 1, 0);
      } else {
        ModUnique(c.beat, beats, 0, c.beat);
      }
    }
  }

  // ---------------------------------------------------------------------------------------
  // Arithmetic helpers

  lemma {:induction false} MulAtLeast(d: int, m: int)
    requires 1 <= d && 0 < m
    ensures d * m >= m
  {
    if d > 1 {
      MulAtLeast(d - 1, m);
      assert d * m == (d - 1) * m + m;
    }
  }

  /** The quotient-remainder split of Euclidean division. */
  lemma DivModSplit(a: int, m: int)
    requires 0 < m
    ensures a == (a / m) * m + a % m && 0 <= a % m < m
  {
  }

  /** Euclidean remainder is determined by any quotient-remainder split. */
  lemma ModUnique(a: int, m: int, q: int, r: int)
    requires 0 < m && 0 <= r < m && a == q * m + r
    ensures a % m == r
  {
    DivModSplit(a, m);
    var q', r' := a / m, a % m;
    assert (q - q') * m == r' - r;
    if q > q' {
      MulAtLeast(q - q', m);
    } else if q < q' {
      assert (q' - q) * m == r - r';
      MulAtLeast(q' - q, m);
    }
  }

  lemma ModSucc(a: int, m: int)
    requires 0 <= a && 0 < m
    ensures (a + 1) % m == if a % m == m - 1 then 0 else a % m + 1
  {
    DivModSplit(a, m);
    var q, r := a / m, a % m;
    if r + 1 < m {
      ModUnique(a + 1, m, q, r + 1);
    } else {
      assert a + 1 == (q + 1) * m;
      ModUnique(a + 1, m, q + 1, 0);
    }
  }

  lemma ModAddPeriod(x: int, m: int)
    requires 0 <= x && 0 < m
    ensures (x + m) % m == x % m
  {
    DivModSplit(x, m);
    var q, r := x / m, x % m;
    assert x + m == (q + 1) * m + r;
    ModUnique(x + m, m, q + 1, r);
  }

  lemma PositionDeterminesCounters(a: Clock, b: Clock, beats: Byte)
    requires InRange(a, beats) && InRange(b, beats) && Position(a) == Position(b)
    ensures a.sixteenth == b.sixteenth && a.beat == b.beat
  {
  }

  // ---------------------------------------------------------------------------------------
  // Many ticks

  /** From counters in range, `n` ticks keep them in range and advance the position in the
      measure by `n` sixteenths modulo the measure length `4*beats`. */
  lemma {:induction false} TicksPosition(c: Clock, beats: Byte, n: nat)
    requires InRange(c, beats)
    ensures InRange(Ticks(c, beats, n), beats)
    ensures Position(Ticks(c, beats, n)) == (Position(c) + n) % (4 * beats)
  {
    if n == 0 {
      ModUnique(Position(c), 4 * beats, 0, Position(c));
    } else {
      TicksPosition(c, beats, n - 1);
      TickCounters(Ticks(c, beats, n - 1), beats);
      ModSucc(Position(c) + n - 1, 4 * beats);
    }
  }

  /** The counters are periodic with period one measure, `4*beats` ticks. */
  lemma MeasureIsPeriodic(c: Clock, beats: Byte, n: nat)
    requires InRange(c, beats)
    ensures Ticks(c, beats, n + 4 * beats).sixteenth == Ticks(c, beats, n).sixteenth
    ensures Ticks(c, beats, n + 4 * beats).beat == Ticks(c, beats, n).beat
  {
    var m := 4 * beats;
    TicksPosition(c, beats, n);
    TicksPosition(c, beats, n + m);
    ModAddPeriod(Position(c) + n, m);
    PositionDeterminesCounters(Ticks(c, beats, n + m), Ticks(c, beats, n), beats);
  }

  /** The sixteenth counter alone, whatever the measure length, cycles with period four. */
  lemma {:induction false} SixteenthAfter(c: Clock, beats: Byte, n: nat)
    requires InRange(c, beats)
    ensures Ticks(c, beats, n).sixteenth == (c.sixteenth - 1 + n) % 4 + 1
  {
    if n > 0 {
      var p := Ticks(c, beats, n - 1);
      SixteenthAfter(c, beats, n - 1);
      TicksPosition(c, beats, n - 1);
      TickCounters(p, beats);
      var a := c.sixteenth - 1 + n - 1;
      ModSucc(a, 4);
      assert Ticks(c, beats, n).sixteenth == p.sixteenth % 4 + 1;
      if a % 4 == 3 {
        assert p.sixteenth == 4;
      } else {
        assert p.sixteenth % 4 == p.sixteenth == a % 4 + 1;
      }
    }
  }

  /** From counters in range, a tick raises `oneBeat` exactly when it leaves the last
      sixteenth of the measure. */
  lemma OneBeatAtMeasureEnd(c: Clock, beats: Byte)
    requires InRange(c, beats)
    ensures TickStep(c, beats).oneBeat <==> Position(c) == 4 * beats - 1
  {
    if Position(c) == 4 * beats - 1 {
      assert (c.beat - 1) * 4 + c.sixteenth == 4 * beats;
    }
  }

  /** From the session start, `oneBeat` is up after tick k exactly when k is the first tick of
      a measure (k = 1, 4*beats+1, ...): once per measure, not once per quarter note. */
  lemma OneBeatOncePerMeasure(c: Clock, beats: Byte, k: nat)
    requires 1 <= beats && 1 <= k
    ensures Ticks(SessionStart(c, beats), beats, k).oneBeat <==> k % (4 * beats) == 1
  {
    var s0, m := SessionStart(c, beats), 4 * beats;
    var x := k - 1;
    var pre := Ticks(s0, beats, x);
    assert Ticks(s0, beats, k) == TickStep(pre, beats);
    assert Position(s0) == m - 1;
    TicksPosition(s0, beats, x);
    OneBeatAtMeasureEnd(pre, beats);
    DivModSplit(x, m);
    var q, r := x / m, x % m;
    if r == 0 {
      ModUnique(m - 1 + x, m, q, m - 1);
      ModUnique(k, m, q, 1);
    } else {
      ModUnique(m - 1 + x, m, q + 1, r - 1);
      if r + 1 < m {
        ModUnique(k, m, q, r + 1);
      } else {
        ModUnique(k, m, q + 1, 0);
      }
    }
  }

  /** From the session start, `upBeat` is up after tick k exactly when k % 4 == 3: the tick
      whose sixteenth counter was 2 before it. */
  lemma UpBeatOnOffBeats(c: Clock, beats: Byte, k: nat)
    requires 1 <= beats && 1 <= k
    ensures Ticks(SessionStart(c, beats), beats, k).upBeat <==> k % 4 == 3
  {
    SixteenthAfter(SessionStart(c, beats), beats, k - 1);
  }

  /** A tick never clears `metronomeOn`. */
  lemma {:induction false} MetronomeStaysOn(c: Clock, beats: Byte, n: nat)
    requires c.metronomeOn
    ensures Ticks(c, beats, n).metronomeOn
  {
    if n > 0 {
      MetronomeStaysOn(c, beats, n - 1);
    }
  }

  /** From the session start, the metronome is off before the first tick and on after every
      tick: the first tick is the end of a quarter note. */
  lemma {:induction false} MetronomeOnFromFirstTick(c: Clock, beats: Byte, k: nat)
    ensures Ticks(SessionStart(c, beats), beats, k).metronomeOn <==> 1 <= k
  {
    if k > 1 {
      MetronomeOnFromFirstTick(c, beats, k - 1);
    }
  }

  /** Over the first measure of a session, `oneBeat` fires exactly once. */
  lemma OneBeatCountInFirstMeasure(c: Clock, beats: Byte, n: nat)
    requires 1 <= beats && 1 <= n <= 4 * beats
    ensures OneBeatCount(SessionStart(c, beats), beats, n) == 1
  {
    var s0 := SessionStart(c, beats);
    var i := 1;
    OneBeatOncePerMeasure(c, beats, 1);
    ModUnique(1, 4 * beats, 0, 1);
    while i < n
      invariant 1 <= i <= n
      invariant OneBeatCount(s0, beats, i) == 1
    {
      i := i + 1;
      OneBeatOncePerMeasure(c, beats, i);
      if i < 4 * beats {
        ModUnique(i, 4 * beats, 0, i);
      } else {
        ModUnique(i, 4 * beats, 1, 0);
      }
    }
  }

  /** The buffer roles alternate: after tick n >= 1 the process buffer is the ping buffer
      exactly when the start mode was ping and n is odd (or pong and n even), the fill buffer is
      always the other one, and every tick flips the mode. */
  lemma {:induction false} BufferRolesAlternate(c: Clock, beats: Byte, n: nat)
    ensures Ticks(c, beats, n).pingMode == (c.pingMode == (n % 2 == 0))
    ensures 1 <= n ==> Ticks(c, beats, n).processIsPing == (c.pingMode == (n % 2 == 1))
    ensures 1 <= n ==> Ticks(c, beats, n).fillIsPing == !Ticks(c, beats, n).processIsPing
  {
    if n > 0 {
      BufferRolesAlternate(c, beats, n - 1);
    }
  }

  /** Two ticks restore the buffer roles and the mode. */
  lemma TwoTicksRestoreRoles(c: Clock, beats: Byte, n: nat)
    requires 1 <= n
    ensures Ticks(c, beats, n + 2).processIsPing == Ticks(c, beats, n).processIsPing
    ensures Ticks(c, beats, n + 2).fillIsPing == Ticks(c, beats, n).fillIsPing
    ensures Ticks(c, beats, n + 2).pingMode == Ticks(c, beats, n).pingMode
  {
    BufferRolesAlternate(c, beats, n);
    BufferRolesAlternate(c, beats, n + 2);
  }
}
