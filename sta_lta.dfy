/** The STA/LTA event detector of the sensor node: one thread that, on each
    "data ready" signal, fills a 255-sample short window and a 1023-sample long
    window from the sample store, averages them and asks the radio task for a
    transmission whenever the short-term average exceeds the long-term one.

    The sample store itself is not part of this model: every cycle receives
    its two windows as input.  Averages are exact rationals; the firmware's
    single-precision accumulation is not modelled. */
module StaLta {
  import opened MachineInts

  const STA_WINDOW_SIZE: nat := 255
  const LTA_WINDOW_SIZE: nat := 1023
  const THRESHOLD: real := 1.0

  /** A request to the sample store: `size` samples starting `offset` positions
      from its write cursor (a negative offset counts back from the newest). */
  datatype WindowRequest = WindowRequest(size: nat, offset: int)

  /** The two requests one detector cycle issues, short window first. */
  const SHORT_REQUEST := WindowRequest(STA_WINDOW_SIZE, -(STA_WINDOW_SIZE as int))
  const LONG_REQUEST := WindowRequest(LTA_WINDOW_SIZE, -(LTA_WINDOW_SIZE as int))

  /** Both requests end at the newest sample and the short one is strictly
      shorter, so the short window is the most recent part of the long one. */
  lemma ShortWindowIsRecentPartOfLong()
    ensures SHORT_REQUEST.offset + SHORT_REQUEST.size as int == 0
    ensures LONG_REQUEST.offset + LONG_REQUEST.size as int == 0
    ensures LONG_REQUEST.offset < SHORT_REQUEST.offset
    ensures 0 < SHORT_REQUEST.size < LONG_REQUEST.size
  {
  }

  /** What one pass of the thread's loop body ends in. */
  datatype CycleOutcome =
    | Stop     // the long-term average was zero: the thread function returns
    | Trigger  // ratio above the threshold: a transmission is requested
    | Quiet    // ratio at or below the threshold: nothing happens

  /** The two windows the sample store delivers to one cycle. */
  datatype Windows = Windows(short: seq<Uint16>, long: seq<Uint16>)

  /** The windows have the sizes the cycle's two requests ask for. */
  predicate WellSized(w: Windows)
  {
    |w.short| == SHORT_REQUEST.size && |w.long| == LONG_REQUEST.size
  }

  /** Sum of a window, accumulated from its first sample to its last. */
  function Sum(s: seq<Uint16>): int
  {
    if s == [] then 0 else Sum(s[..|s| - 1]) + s[|s| - 1]
  }

  /** Arithmetic mean of a non-empty window. */
  function Mean(s: seq<Uint16>): real
    requires |s| > 0
  {
    Sum(s) as real / |s| as real
  }

  function SeqMin(s: seq<Uint16>): Uint16
    requires |s| > 0
  {
    if |s| == 1 then s[0]
    else var m := SeqMin(s[..|s| - 1]); if s[|s| - 1] < m then s[|s| - 1] else m
  }

  function SeqMax(s: seq<Uint16>): Uint16
    requires |s| > 0
  {
    if |s| == 1 then s[0]
    else var m := SeqMax(s[..|s| - 1]); if s[|s| - 1] > m then s[|s| - 1] else m
  }

  /** The decision of one cycle, from the two windows alone. */
  function Decide(w: Windows): (outcome: CycleOutcome)
    requires WellSized(w)
    ensures outcome == Stop <==> Sum(w.long) == 0
  {
    var sta := Mean(w.short);
    var lta := Mean(w.long);
    if lta == 0.0 then Stop
    else if sta / lta > THRESHOLD then Trigger
    else Quiet
  }

  /** The outcomes of a run of the thread over successive cycles: one outcome
      per cycle, and nothing after the first `Stop`, since the thread returns. */
  function Trace(ws: seq<Windows>): (trace: seq<CycleOutcome>)
    requires forall i :: 0 <= i < |ws| ==> WellSized(ws[i])
    ensures |trace| <= |ws|
    ensures |ws| > 0 ==> |trace| > 0
  {
    if ws == [] then []
    else
      var o := Decide(ws[0]);
      if o == Stop then [o] else [o] + Trace(ws[1..])
  }

  /** Number of transmissions requested in a trace. */
  function TriggerCount(t: seq<CycleOutcome>): nat
  {
    if t == [] then 0 else (if t[0] == Trigger then 1 else 0) + TriggerCount(t[1..])
  }

  // ----- the averaging loop ----------------------------------------------

  /** `calculate_sta` and `calculate_lta`: the two functions have the same
      text, so one method models both; it sums `buffer[0..size)` and divides
      by `size`. */
  method Average(buffer: array<Uint16>, size: nat) returns (avg: real)
    requires 0 < size <= buffer.Length
    ensures avg == Mean(buffer[..size])
  {
    var sum: int := 0;
    for i := 0 to size
      invariant sum == Sum(buffer[..i])
    {
      assert buffer[..i + 1][..i] == buffer[..i];
      sum := sum + buffer[i];
    }
    avg := sum as real / size as real;
  }

  // ----- the detector thread ----------------------------------------------

  /** The detector's two static buffers, which the sample store fills in place
      at the start of every cycle. */
  class Detector {
    var staBuffer: array<Uint16>
    var ltaBuffer: array<Uint16>

    ghost predicate Valid()
      reads this
    {
      staBuffer.Length == STA_WINDOW_SIZE && ltaBuffer.Length == LTA_WINDOW_SIZE
      && staBuffer != ltaBuffer
    }

    /** Static storage starts zeroed. */
    constructor ()
      ensures Valid() && fresh(staBuffer) && fresh(ltaBuffer)
      ensures forall i :: 0 <= i < STA_WINDOW_SIZE ==> staBuffer[i] == 0
      ensures forall i :: 0 <= i < LTA_WINDOW_SIZE ==> ltaBuffer[i] == 0
    {
      staBuffer := new Uint16[STA_WINDOW_SIZE](_ => 0);
      ltaBuffer := new Uint16[LTA_WINDOW_SIZE](_ => 0);
    }

    /** The effect of the two `adc_get_buffer` calls: both buffers now hold
        the windows the store delivered. */
    method Load(w: Windows)
      requires Valid() && WellSized(w)
      modifies staBuffer, ltaBuffer
      ensures Valid()
      ensures staBuffer[..] == w.short && ltaBuffer[..] == w.long
    {
      for i := 0 to STA_WINDOW_SIZE
        invariant staBuffer[..i] == w.short[..i]
      {
        staBuffer[i] := w.short[i];
      }
      for i := 0 to LTA_WINDOW_SIZE
        invariant ltaBuffer[..i] == w.long[..i]
        invariant staBuffer[..] == w.short
      {
        ltaBuffer[i] := w.long[i];
      }
    }

    /** The rest of one pass of the loop body: both averages, the zero check
        on the long-term average, then the single threshold test. */
    method Cycle() returns (outcome: CycleOutcome)
      requires Valid()
      ensures outcome == Decide(Windows(staBuffer[..], ltaBuffer[..]))
    {
      assert staBuffer[..] == staBuffer[..STA_WINDOW_SIZE];
      assert ltaBuffer[..] == ltaBuffer[..LTA_WINDOW_SIZE];
      var sta := Average(staBuffer, STA_WINDOW_SIZE);
      var lta := Average(ltaBuffer, LTA_WINDOW_SIZE);
      if lta == 0.0 {
        return Stop;
      }
      var ratio := sta / lta;
      if ratio > THRESHOLD {
        outcome := Trigger;
      } else {
        outcome := Quiet;
      }
    }

    /** The thread body over a finite run of cycles: it goes on until the
        windows run out or a cycle ends in `Stop`.  The buffers are left
        holding the windows of the last cycle that ran. */
    method Run(ws: seq<Windows>) returns (trace: seq<CycleOutcome>)
      requires Valid()
      requires forall i :: 0 <= i < |ws| ==> WellSized(ws[i])
      modifies staBuffer, ltaBuffer
      ensures Valid()
      ensures trace == Trace(ws)
      ensures |ws| > 0 ==>
                staBuffer[..] == ws[|trace| - 1].short && ltaBuffer[..] == ws[|trace| - 1].long
    {
      trace := [];
      var i := 0;
      while i < |ws|
        invariant 0 <= i <= |ws| && Valid()
        invariant |trace| == i
        invariant Trace(ws) == trace + Trace(ws[i..])
        invariant i > 0 ==> staBuffer[..] == ws[i - 1].short && ltaBuffer[..] == ws[i - 1].long
      {
        Load(ws[i]);
        var outcome := Cycle();
        assert outcome == Decide(ws[i]);
        TraceStep(ws, i);
        trace := trace + [outcome];
        if outcome == Stop {
          return;
        }
        i := i + 1;
      }
    }
  }

  // ----- properties ---------------------------------------------------------

  /** One step of a run: the trace from cycle `i` on. */
  lemma TraceStep(ws: seq<Windows>, i: nat)
    requires forall k :: 0 <= k < |ws| ==> WellSized(ws[k])
    requires i < |ws|
    ensures Trace(ws[i..]) == if Decide(ws[i]) == Stop then [Stop]
                              else [Decide(ws[i])] + Trace(ws[i + 1..])
  {
    assert ws[i..][0] == ws[i];
    assert ws[i..][1..] == ws[i + 1..];
  }

  lemma {:induction false} SumBounds(s: seq<Uint16>, lo: int, hi: int)
    requires forall i :: 0 <= i < |s| ==> lo <= s[i] <= hi
    ensures |s| * lo <= Sum(s) <= |s| * hi
  {
    if s != [] {
      SumBounds(s[..|s| - 1], lo, hi);
    }
  }

  lemma {:induction false} SeqMinMaxBound(s: seq<Uint16>)
    requires |s| > 0
    ensures forall i :: 0 <= i < |s| ==> SeqMin(s) <= s[i] <= SeqMax(s)
    ensures SeqMin(s) in s && SeqMax(s) in s
  {
    if |s| > 1 {
      SeqMinMaxBound(s[..|s| - 1]);
      assert forall i :: 0 <= i < |s| - 1 ==> s[..|s| - 1][i] == s[i];
    }
  }

  /** The average of a window lies between its smallest and its largest
      sample, so it is never negative. */
  lemma MeanBetweenMinAndMax(s: seq<Uint16>)
    requires |s| > 0
    ensures SeqMin(s) as real <= Mean(s) <= SeqMax(s) as real
    ensures Mean(s) >= 0.0
  {
    SeqMinMaxBound(s);
    SumBounds(s, SeqMin(s), SeqMax(s));
    QuotientBounds(Sum(s), |s|, SeqMin(s), SeqMax(s));
  }

  lemma QuotientBounds(total: int, n: int, lo: int, hi: int)
    requires n > 0 && n * lo <= total <= n * hi
    ensures lo as real <= total as real / n as real <= hi as real
  {
    var q := total as real / n as real;
    assert q * n as real == total as real;
    assert (n * lo) as real == n as real * lo as real;
    assert (n * hi) as real == n as real * hi as real;
  }

  lemma RatioAboveOne(a: real, b: real)
    requires b > 0.0
    ensures a / b > 1.0 <==> a > b
  {
    assert a / b * b == a;
  }

  lemma {:induction false} SumZeroIffAllZero(s: seq<Uint16>)
    ensures Sum(s) >= 0
    ensures Sum(s) == 0 <==> forall i :: 0 <= i < |s| ==> s[i] == 0
  {
    if s != [] {
      var p := s[..|s| - 1];
      SumZeroIffAllZero(p);
      assert forall i :: 0 <= i < |s| - 1 ==> p[i] == s[i];
    }
  }

  /** A cycle stops the thread exactly when every long-window sample is 0. */
  lemma StopIffLongWindowSilent(w: Windows)
    requires WellSized(w)
    ensures Decide(w) == Stop <==> forall i :: 0 <= i < LTA_WINDOW_SIZE ==> w.long[i] == 0
  {
    SumZeroIffAllZero(w.long);
  }

  /** With a non-zero long-term average, a cycle triggers exactly when
      STA/LTA > 1, which in exact integer terms is
      `sum(short) * 1023 > sum(long) * 255`. */
  lemma TriggerIffCrossMultiplied(w: Windows)
    requires WellSized(w)
    ensures Decide(w) == Trigger <==>
              Sum(w.long) != 0 && Sum(w.short) * 1023 > Sum(w.long) * 255
  {
    SumZeroIffAllZero(w.long);
    SumZeroIffAllZero(w.short);
    var S, L := Sum(w.short) as real, Sum(w.long) as real;
    var sta, lta := Mean(w.short), Mean(w.long);
    assert sta == S / 255.0 && lta == L / 1023.0;
    if L != 0.0 {
      assert lta > 0.0;
      RatioAboveOne(sta, lta);
      assert sta > lta <==> S * 1023.0 > L * 255.0;
    }
  }

  /** The detector keeps no state between cycles: each outcome in a run is
      the decision on that cycle's windows alone. */
  lemma {:induction false} TraceIsPointwise(ws: seq<Windows>)
    requires forall i :: 0 <= i < |ws| ==> WellSized(ws[i])
    ensures forall k :: 0 <= k < |Trace(ws)| ==> Trace(ws)[k] == Decide(ws[k])
  {
    if ws != [] && Decide(ws[0]) != Stop {
      TraceIsPointwise(ws[1..]);
    }
  }

  /** A run ends at its first silent long window: no `Stop` before the last
      outcome, and a run shorter than its input ends in `Stop`. */
  lemma {:induction false} TraceEndsAtFirstStop(ws: seq<Windows>)
    requires forall i :: 0 <= i < |ws| ==> WellSized(ws[i])
    ensures forall k :: 0 <= k < |Trace(ws)| - 1 ==> Trace(ws)[k] != Stop
    ensures |Trace(ws)| < |ws| ==> Trace(ws) != [] && Trace(ws)[|Trace(ws)| - 1] == Stop
    ensures (forall i :: 0 <= i < |ws| ==> Decide(ws[i]) != Stop) ==> |Trace(ws)| == |ws|
  {
    if ws != [] && Decide(ws[0]) != Stop {
      TraceEndsAtFirstStop(ws[1..]);
      assert forall i :: 0 <= i < |ws| - 1 ==> ws[1..][i] == ws[i + 1];
    }
  }

  /** There is no hysteresis: a run of cycles that are all above the
      threshold requests a transmission on every one of them. */
  lemma {:induction false} EveryAboveThresholdCycleTriggers(ws: seq<Windows>)
    requires forall i :: 0 <= i < |ws| ==> WellSized(ws[i]) && Decide(ws[i]) == Trigger
    ensures TriggerCount(Trace(ws)) == |ws|
  {
    if ws != [] {
      EveryAboveThresholdCycleTriggers(ws[1..]);
    }
  }
}
