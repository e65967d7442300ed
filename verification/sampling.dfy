/** The sampling schedule of `SheetGrabber.extract_frames`: which frame indices
    are decoded and saved. */
module Sampling {
  import opened Wrappers
  import opened Images

  /** Python's `round` applied to the rational n / d: the nearest integer,
      halves going to the even neighbour. */
  function RoundHalfEven(n: int, d: int): (r: int)
    requires d > 0
    ensures -d <= 2 * (n - d * r) <= d
    ensures (2 * (n - d * r) == d || 2 * (n - d * r) == -d) ==> r % 2 == 0
  {
    var q, m := n / d, n % d;
    DivModParts(n, d);
    MulNext(d, q);
    if 2 * m < d then q
    else if 2 * m > d then q + 1
    else if q % 2 == 0 then q
    else q + 1
  }

  lemma DivModParts(n: int, d: int)
    requires d > 0
    ensures n - d * (n / d) == n % d && 0 <= n % d < d
  {
  }

  lemma MulNext(d: int, q: int)
    ensures d * (q + 1) == d * q + d
  {
  }

  /** Lines 107-109: the interval in frames, `round(fps * interval_ms / 1000)`. */
  function Stride(fps: int, intervalMs: int): int {
    RoundHalfEven(fps * intervalMs, 1000)
  }

  /** `math.ceil(n / d)` for a positive divisor. */
  function CeilDiv(n: int, d: int): (c: int)
    requires d > 0
    ensures d * (c - 1) < n <= d * c
  {
    -((-n) / d)
  }

  /** `range(k, stop, step)` for a positive step. */
  function RangeFrom(k: nat, stop: int, step: int): seq<nat>
    requires step > 0
    decreases stop - k
  {
    if k >= stop then [] else [k] + RangeFrom(k + step, stop, step)
  }

  /** Line 116: `range(0, frame_count, interval_frames)`; a negative stride gives
      an empty range, a zero stride never gets here (line 111 divides by it). */
  function Schedule(frameCount: nat, stride: int): seq<nat>
    requires stride != 0
  {
    if stride < 0 then [] else RangeFrom(0, frameCount, stride)
  }

  /** The indices actually saved: the schedule up to the first failed decode. */
  function Sampled(schedule: seq<nat>, decode: nat -> Option<Image>): seq<nat>
  {
    if schedule == [] || decode(schedule[0]).None? then []
    else [schedule[0]] + Sampled(schedule[1..], decode)
  }

  // ---------------------------------------------------------------- lemmas

  /** The stride is zero, so that line 111 raises, exactly when
      |fps * interval_ms| <= 500 (0.5 rounds down to the even 0). */
  lemma StrideZeroIff(fps: int, intervalMs: int)
    ensures Stride(fps, intervalMs) == 0 <==> -500 <= fps * intervalMs <= 500
  {
  }

  lemma MulMonotone(d: int, a: int, b: int)
    requires d > 0 && a <= b
    ensures d * a <= d * b
  {
    assert d * b - d * a == d * (b - a);
  }

  /** The bracket d * (c - 1) < n <= d * c pins c down. */
  lemma CeilUnique(n: int, d: int, c: int)
    requires d > 0 && d * (c - 1) < n <= d * c
    ensures c == CeilDiv(n, d)
  {
    var e := CeilDiv(n, d);
    if c < e {
      MulMonotone(d, c, e - 1);
    } else if c > e {
      MulMonotone(d, e, c - 1);
    }
  }

  lemma {:induction false} RangeFromShape(k: nat, stop: int, step: int)
    requires step > 0
    ensures |RangeFrom(k, stop, step)| == if k >= stop then 0 else CeilDiv(stop - k, step)
    ensures forall i :: 0 <= i < |RangeFrom(k, stop, step)| ==>
      RangeFrom(k, stop, step)[i] == k + i * step
  {
    RangeFromLength(k, stop, step);
    RangeFromAt(k, stop, step);
  }

  lemma {:induction false} RangeFromLength(k: nat, stop: int, step: int)
    requires step > 0
    ensures |RangeFrom(k, stop, step)| == if k >= stop then 0 else CeilDiv(stop - k, step)
    decreases stop - k
  {
    if k < stop {
      RangeFromLength(k + step, stop, step);
      if k + step >= stop {
        CeilUnique(stop - k, step, 1);
      } else {
        var c := CeilDiv(stop - k - step, step);
        MulNext(step, c - 1);
        MulNext(step, c);
        CeilUnique(stop - k, step, c + 1);
      }
    }
  }

  lemma {:induction false} RangeFromAt(k: nat, stop: int, step: int)
    requires step > 0
    ensures forall i :: 0 <= i < |RangeFrom(k, stop, step)| ==>
      RangeFrom(k, stop, step)[i] == k + i * step
    decreases stop - k
  {
    if k < stop {
      RangeFromAt(k + step, stop, step);
      var r := RangeFrom(k, stop, step);
      forall i | 0 <= i < |r| ensures r[i] == k + i * step {
        if i > 0 {
          assert r[i] == RangeFrom(k + step, stop, step)[i - 1];
          MulNext(step, i - 1);
          assert (i - 1) * step + step == i * step;
        }
      }
    }
  }

  /** For a positive stride the schedule is 0, s, 2s, ... below the frame count,
      and there are ceil(frame_count / s) entries. */
  lemma ScheduleShape(frameCount: nat, stride: int)
    requires stride > 0
    ensures |Schedule(frameCount, stride)| == CeilDiv(frameCount, stride)
    ensures forall i :: 0 <= i < |Schedule(frameCount, stride)| ==>
      Schedule(frameCount, stride)[i] == i * stride < frameCount
  {
    RangeFromShape(0, frameCount, stride);
    var s := Schedule(frameCount, stride);
    forall i | 0 <= i < |s| ensures s[i] < frameCount {
      RangeBelowStop(0, frameCount, stride, i);
    }
  }

  lemma {:induction false} RangeBelowStop(k: nat, stop: int, step: int, i: nat)
    requires step > 0 && i < |RangeFrom(k, stop, step)|
    ensures RangeFrom(k, stop, step)[i] < stop
    decreases stop - k
  {
    if i > 0 {
      RangeBelowStop(k + step, stop, step, i - 1);
    }
  }

  /** Sampling saves a prefix of the schedule, every saved index decodes, and
      when it stops short the next scheduled index failed to decode. */
  lemma {:induction false} SampledPrefix(schedule: seq<nat>, decode: nat -> Option<Image>)
    ensures |Sampled(schedule, decode)| <= |schedule|
    ensures Sampled(schedule, decode) == schedule[..|Sampled(schedule, decode)|]
    ensures forall i :: 0 <= i < |Sampled(schedule, decode)| ==>
      decode(Sampled(schedule, decode)[i]).Some?
    ensures |Sampled(schedule, decode)| < |schedule| ==>
      decode(schedule[|Sampled(schedule, decode)|]).None?
  {
    if schedule != [] && decode(schedule[0]).Some? {
      SampledPrefix(schedule[1..], decode);
      var rest := Sampled(schedule[1..], decode);
      assert schedule[1..][..|rest|] == schedule[1..|rest| + 1];
      assert schedule[..|rest| + 1] == [schedule[0]] + schedule[1..|rest| + 1];
    }
  }

  /** With no failed decode every scheduled frame is saved. */
  lemma {:induction false} SampledAll(schedule: seq<nat>, decode: nat -> Option<Image>)
    requires forall i :: 0 <= i < |schedule| ==> decode(schedule[i]).Some?
    ensures Sampled(schedule, decode) == schedule
  {
    if schedule != [] {
      SampledAll(schedule[1..], decode);
    }
  }

  /** With no failed decode and a positive stride, ceil(frame_count / stride)
      frames are saved. */
  lemma FullSampleCount(frameCount: nat, stride: int, decode: nat -> Option<Image>)
    requires stride > 0
    requires forall i :: decode(i).Some?
    ensures |Sampled(Schedule(frameCount, stride), decode)| == CeilDiv(frameCount, stride)
  {
    SampledAll(Schedule(frameCount, stride), decode);
    ScheduleShape(frameCount, stride);
  }

  /** 30 fps, a 3000 ms interval and 301 frames give stride 90 and frames 0, 90, 180, 270. */
  lemma ThirtyFpsExample()
    ensures Stride(30, 3000) == 90
    ensures Schedule(301, 90) == [0, 90, 180, 270]
  {
    ScheduleShape(301, 90);
  }
}
