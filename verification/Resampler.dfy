/** The streaming linear resampler, over the reals: a fractional read position and one frame of
    history are carried from buffer to buffer. */
module Resampler {
  datatype Frame = Frame(l: real, r: real)

  /** Interleaved stereo as frames; an odd last sample is ignored. */
  function Frames(samples: seq<real>): (f: seq<Frame>)
    ensures |f| == |samples| / 2
  {
    seq(|samples| / 2, i requires 0 <= i < |samples| / 2 => Frame(samples[2 * i], samples[2 * i + 1]))
  }

  function Interleave(frames: seq<Frame>): (s: seq<real>)
    ensures |s| == 2 * |frames|
  {
    if frames == [] then [] else [frames[0].l, frames[0].r] + Interleave(frames[1..])
  }

  /** Frame `i` of a buffer, -1 being the carried one. */
  function FrameAt(hist: Frame, input: seq<Frame>, i: int): Frame
    requires input != []
  {
    if i < 0 then hist else input[if i < |input| - 1 then i else |input| - 1]
  }

  function Lerp(a: Frame, b: Frame, t: real): Frame {
    Frame(Mix(a.l, b.l, t), Mix(a.r, b.r, t))
  }

  function Mix(x: real, y: real, t: real): real {
    x + (y - x) * t
  }

  /** The output frame at a read position. */
  function Output(hist: Frame, input: seq<Frame>, pos: real): Frame
    requires input != []
  {
    var i0 := pos.Floor;
    Lerp(FrameAt(hist, input, i0), FrameAt(hist, input, i0 + 1), pos - i0 as real)
  }

  /** Reading stops before a frame of the next buffer would be needed. */
  function Limit(input: seq<Frame>): real
  {
    (|input| - 1) as real
  }

  /** How many whole steps of `ratio` fit before the limit: the measure of the loop. */
  function StepsLeft(pos: real, limit: real, ratio: real): int
    requires ratio > 0.0
  {
    ((limit - pos) / ratio).Floor
  }

  lemma StepTaken(pos: real, limit: real, ratio: real)
    requires ratio > 0.0 && pos < limit
    ensures 0 <= StepsLeft(pos, limit, ratio)
    ensures StepsLeft(pos + ratio, limit, ratio) == StepsLeft(pos, limit, ratio) - 1
  {
    var x := Divided(limit - pos, ratio);
    var y := Divided(limit - (pos + ratio), ratio);
    OneLess(limit - pos, x, y, ratio);
    FloorOneLess(x, y);
  }

  lemma Divided(a: real, r: real) returns (x: real)
    requires r > 0.0
    ensures x == a / r && Product(x, r) == a
  {
    x := a / r;
  }

  function Product(x: real, r: real): real {
    x * r
  }

  lemma OneLess(a: real, x: real, y: real, r: real)
    requires a > 0.0 && r > 0.0 && Product(x, r) == a && Product(y, r) == a - r
    ensures y == x - 1.0 && x > 0.0
  {
    Minus(x, 1.0, r);
    Grows(0.0, x, r);
    Grows(x, 0.0, r);
    Grows(y, x - 1.0, r);
    Grows(x - 1.0, y, r);
  }

  lemma Minus(x: real, y: real, r: real)
    ensures Product(x - y, r) == Product(x, r) - Product(y, r) && Product(1.0, r) == r && Product(0.0, r) == 0.0
  {
  }

  lemma Grows(x: real, y: real, r: real)
    requires r > 0.0
    ensures x < y ==> Product(x, r) < Product(y, r)
  {
    Minus(y, x, r);
    NoZeroProduct(y - x, r);
  }

  lemma FloorOneLess(x: real, y: real)
    requires y == x - 1.0
    ensures y.Floor == x.Floor - 1 && (x > 0.0 ==> x.Floor >= 0)
  {
  }

  lemma NoZeroProduct(z: real, r: real)
    requires r > 0.0
    ensures z > 0.0 ==> z * r > 0.0
    ensures z < 0.0 ==> z * r < 0.0
  {
  }

  function Outputs(hist: Frame, input: seq<Frame>, pos: real, ratio: real): seq<Frame>
    requires input != [] && ratio > 0.0
    decreases StepsLeft(pos, Limit(input), ratio)
  {
    if pos >= Limit(input) then []
    else
      StepTaken(pos, Limit(input), ratio);
      [Output(hist, input, pos)] + Outputs(hist, input, pos + ratio, ratio)
  }

  function EndPos(pos: real, limit: real, ratio: real): (end: real)
    requires ratio > 0.0
    ensures end >= limit && end >= pos
    decreases StepsLeft(pos, limit, ratio)
  {
    if pos >= limit then pos
    else
      StepTaken(pos, limit, ratio);
      EndPos(pos + ratio, limit, ratio)
  }

  datatype State = State(srcRate: nat, pos: real, hist: Frame)

  /** A change of source rate restarts the phase. */
  function Tuned(st: State, srcRate: nat): State {
    if st.srcRate != srcRate then State(srcRate, 0.0, Frame(0.0, 0.0)) else st
  }

  function Ratio(srcRate: nat, dstRate: nat): (ratio: real)
    requires srcRate > 0 && dstRate > 0
    ensures ratio > 0.0
  {
    srcRate as real / dstRate as real
  }

  /** One call at a given ratio: the frames it returns and the state it leaves. */
  function Resample(st0: State, srcRate: nat, ratio: real, input: seq<Frame>): (seq<Frame>, State)
    requires ratio > 0.0
  {
    if input == [] then ([], st0)
    else
      var st := Tuned(st0, srcRate);
      (Outputs(st.hist, input, st.pos, ratio),
       State(srcRate, EndPos(st.pos, Limit(input), ratio) - |input| as real, input[|input| - 1]))
  }

  /** From the first position of the next buffer on, reading both buffers in one is reading the next
      one with the last frame of the first as history. */
  lemma {:induction false} Shift(hist: Frame, a: seq<Frame>, b: seq<Frame>, pos: real, ratio: real)
    requires a != [] && b != [] && ratio > 0.0 && pos >= Limit(a)
    ensures Outputs(hist, a + b, pos, ratio) == Outputs(a[|a| - 1], b, pos - |a| as real, ratio)
    decreases StepsLeft(pos, Limit(a + b), ratio)
  {
    var back := pos - |a| as real;
    assert Limit(a + b) == Limit(b) + |a| as real;
    if pos < Limit(a + b) {
      StepTaken(pos, Limit(a + b), ratio);
      SameFrame(hist, a, b, pos);
      Shift(hist, a, b, pos + ratio, ratio);
      assert pos + ratio - |a| as real == back + ratio;
    }
  }

  lemma SameFrame(hist: Frame, a: seq<Frame>, b: seq<Frame>, pos: real)
    requires a != [] && b != [] && Limit(a) <= pos < Limit(a + b)
    ensures Output(hist, a + b, pos) == Output(a[|a| - 1], b, pos - |a| as real)
  {
    var back := pos - |a| as real;
    assert back.Floor == pos.Floor - |a|;
    assert pos - pos.Floor as real == back - back.Floor as real;
  }

  lemma OwnFrame(hist: Frame, a: seq<Frame>, b: seq<Frame>, pos: real)
    requires a != [] && pos < Limit(a)
    ensures Output(hist, a + b, pos) == Output(hist, a, pos)
  {
  }

  lemma {:induction false} EndShift(n: nat, pos: real, limit: real, ratio: real)
    requires ratio > 0.0
    ensures EndPos(pos, limit + n as real, ratio) - n as real == EndPos(pos - n as real, limit, ratio)
    decreases StepsLeft(pos, limit + n as real, ratio)
  {
    if pos < limit + n as real {
      StepTaken(pos, limit + n as real, ratio);
      EndShift(n, pos + ratio, limit, ratio);
      assert pos + ratio - n as real == pos - n as real + ratio;
    }
  }

  /** Reading two buffers in one is reading the first, and then the second with what was carried. */
  lemma {:induction false} Join(hist: Frame, a: seq<Frame>, b: seq<Frame>, pos: real, ratio: real)
    requires a != [] && b != [] && ratio > 0.0
    ensures Outputs(hist, a + b, pos, ratio) == Outputs(hist, a, pos, ratio)
              + Outputs(a[|a| - 1], b, EndPos(pos, Limit(a), ratio) - |a| as real, ratio)
    decreases StepsLeft(pos, Limit(a), ratio)
  {
    if pos >= Limit(a) {
      Shift(hist, a, b, pos, ratio);
    } else {
      StepTaken(pos, Limit(a), ratio);
      OwnFrame(hist, a, b, pos);
      Join(hist, a, b, pos + ratio, ratio);
    }
  }

  lemma {:induction false} EndJoin(pos: real, limit: real, limit2: real, ratio: real)
    requires ratio > 0.0 && limit <= limit2
    ensures EndPos(pos, limit2, ratio) == EndPos(EndPos(pos, limit, ratio), limit2, ratio)
    decreases StepsLeft(pos, limit, ratio)
  {
    if pos < limit {
      StepTaken(pos, limit, ratio);
      EndJoin(pos + ratio, limit, limit2, ratio);
    }
  }

  /** Chunk independence: two calls are one call on the joined buffer, frames and state alike. */
  lemma ChunkIndependence(st: State, srcRate: nat, ratio: real, a: seq<Frame>, b: seq<Frame>)
    requires ratio > 0.0
    ensures var (x, mid) := Resample(st, srcRate, ratio, a);
            var (y, end) := Resample(mid, srcRate, ratio, b);
            Resample(st, srcRate, ratio, a + b) == (x + y, end)
  {
    if a == [] {
      assert a + b == b;
      assert [] + Resample(st, srcRate, ratio, b).0 == Resample(st, srcRate, ratio, b).0;
    } else if b == [] {
      assert a + b == a;
      assert Resample(st, srcRate, ratio, a).0 + [] == Resample(st, srcRate, ratio, a).0;
    } else {
      var s := Tuned(st, srcRate);
      JoinCall(s.hist, a, b, s.pos, ratio);
      assert (a + b)[|a + b| - 1] == b[|b| - 1];
      var mid := Resample(st, srcRate, ratio, a).1;
      assert mid.srcRate == srcRate && mid.hist == a[|a| - 1];
    }
  }

  lemma JoinCall(hist: Frame, a: seq<Frame>, b: seq<Frame>, pos: real, ratio: real)
    requires a != [] && b != [] && ratio > 0.0
    ensures var next := EndPos(pos, Limit(a), ratio) - |a| as real;
            && Outputs(hist, a + b, pos, ratio) == Outputs(hist, a, pos, ratio) + Outputs(a[|a| - 1], b, next, ratio)
            && EndPos(pos, Limit(a + b), ratio) - |a + b| as real == EndPos(next, Limit(b), ratio) - |b| as real
  {
    Join(hist, a, b, pos, ratio);
    EndJoin(pos, Limit(a), Limit(a + b), ratio);
    assert Limit(a + b) == Limit(b) + |a| as real;
    EndShift(|a|, EndPos(pos, Limit(a), ratio), Limit(b), ratio);
  }

  /** Any way of cutting a stream into buffers gives the same frames and the same final state. */
  function ResampleAll(st: State, srcRate: nat, ratio: real, chunks: seq<seq<Frame>>): (seq<Frame>, State)
    requires ratio > 0.0
    decreases |chunks|
  {
    if chunks == [] then ([], st)
    else
      var (x, mid) := Resample(st, srcRate, ratio, chunks[0]);
      var (y, end) := ResampleAll(mid, srcRate, ratio, chunks[1..]);
      (x + y, end)
  }

  function Flatten(chunks: seq<seq<Frame>>): seq<Frame> {
    if chunks == [] then [] else chunks[0] + Flatten(chunks[1..])
  }

  lemma {:induction false} StreamIndependence(st: State, srcRate: nat, ratio: real, chunks: seq<seq<Frame>>)
    requires ratio > 0.0
    ensures ResampleAll(st, srcRate, ratio, chunks) == Resample(st, srcRate, ratio, Flatten(chunks))
    decreases |chunks|
  {
    if chunks != [] {
      var mid := Resample(st, srcRate, ratio, chunks[0]).1;
      StreamIndependence(mid, srcRate, ratio, chunks[1..]);
      ChunkIndependence(st, srcRate, ratio, chunks[0], Flatten(chunks[1..]));
    }
  }

  /** The position never falls more than one frame behind a buffer's start, so the carried frame is
      all the history that is needed. */
  lemma PositionBound(st: State, srcRate: nat, ratio: real, input: seq<Frame>)
    requires ratio > 0.0 && st.pos >= -1.0
    ensures Resample(st, srcRate, ratio, input).1.pos >= -1.0
  {
  }

  function PosAt(pos: real, ratio: real, k: nat): real
    decreases k
  {
    if k == 0 then pos else PosAt(pos + ratio, ratio, k - 1)
  }

  lemma {:induction false} PosAtIs(pos: real, ratio: real, k: nat)
    ensures PosAt(pos, ratio, k) == pos + k as real * ratio
    decreases k
  {
    if k > 0 {
      PosAtIs(pos + ratio, ratio, k - 1);
      assert (k - 1) as real * ratio == k as real * ratio - ratio;
    }
  }

  /** The k-th frame of a call is read at the k-th position, and there is one for each position short
      of the limit. */
  lemma {:induction false} OutputAt(hist: Frame, input: seq<Frame>, pos: real, ratio: real, k: nat)
    requires input != [] && ratio > 0.0
    ensures k < |Outputs(hist, input, pos, ratio)| <==> PosAt(pos, ratio, k) < Limit(input)
    ensures k < |Outputs(hist, input, pos, ratio)| ==>
              Outputs(hist, input, pos, ratio)[k] == Output(hist, input, PosAt(pos, ratio, k))
    decreases k
  {
    if pos >= Limit(input) {
      PosAtGrows(pos, ratio, k);
    } else if k > 0 {
      OutputAt(hist, input, pos + ratio, ratio, k - 1);
    }
  }

  lemma {:induction false} PosAtGrows(pos: real, ratio: real, k: nat)
    requires ratio > 0.0
    ensures PosAt(pos, ratio, k) >= pos
    decreases k
  {
    if k > 0 {
      PosAtGrows(pos + ratio, ratio, k - 1);
    }
  }

  /** At a position that is read, the clamp of the frame index does not act, and the output lies
      between the two input frames around the position. */
  lemma OutputBetween(hist: Frame, input: seq<Frame>, pos: real)
    requires input != [] && -1.0 <= pos < Limit(input)
    ensures var i := pos.Floor;
            && -1 <= i < i + 1 < |input|
            && FrameAt(hist, input, i + 1) == input[i + 1] && (i >= 0 ==> FrameAt(hist, input, i) == input[i])
            && Between(Output(hist, input, pos), FrameAt(hist, input, i), input[i + 1])
  {
    var i := pos.Floor;
    LerpBetween(FrameAt(hist, input, i), input[i + 1], pos - i as real);
  }

  /** From any position a call leaves, every frame of the next call lies between its two neighbours, the carried
      frame being the one before the first. */
  lemma EveryOutputBetween(st0: State, srcRate: nat, ratio: real, input: seq<Frame>, k: nat)
    requires ratio > 0.0 && st0.pos >= -1.0 && k < |Resample(st0, srcRate, ratio, input).0|
    ensures var st := Tuned(st0, srcRate);
            var i := PosAt(st.pos, ratio, k).Floor;
            && -1 <= i && i + 1 < |input|
            && Between(Resample(st0, srcRate, ratio, input).0[k], FrameAt(st.hist, input, i), input[i + 1])
    ensures Resample(st0, srcRate, ratio, input).1.pos >= -1.0
  {
    var st := Tuned(st0, srcRate);
    OutputAt(st.hist, input, st.pos, ratio, k);
    PosAtGrows(st.pos, ratio, k);
    OutputBetween(st.hist, input, PosAt(st.pos, ratio, k));
    PositionBound(st0, srcRate, ratio, input);
  }

  predicate Between(f: Frame, a: Frame, b: Frame) {
    && (a.l <= f.l <= b.l || b.l <= f.l <= a.l)
    && (a.r <= f.r <= b.r || b.r <= f.r <= a.r)
  }

  lemma LerpBetween(a: Frame, b: Frame, t: real)
    requires 0.0 <= t <= 1.0
    ensures Between(Lerp(a, b, t), a, b)
  {
    MixBetween(a.l, b.l, t);
    MixBetween(a.r, b.r, t);
  }

  lemma MixBetween(x: real, y: real, t: real)
    requires 0.0 <= t <= 1.0
    ensures x <= Mix(x, y, t) <= y || y <= Mix(x, y, t) <= x
  {
    var p := Scaled(y - x, t);
  }

  lemma Scaled(d: real, t: real) returns (p: real)
    requires 0.0 <= t <= 1.0
    ensures p == d * t
    ensures if d >= 0.0 then 0.0 <= p <= d else d <= p <= 0.0
  {
    p := d * t;
    if d >= 0.0 {
      assert d * (1.0 - t) >= 0.0;
    } else {
      assert d * (1.0 - t) <= 0.0;
    }
  }

  lemma {:induction false} InterleaveAppend(a: seq<Frame>, b: seq<Frame>)
    ensures Interleave(a + b) == Interleave(a) + Interleave(b)
  {
    if a == [] {
      assert a + b == b;
    } else {
      assert (a + b)[1..] == a[1..] + b;
      InterleaveAppend(a[1..], b);
    }
  }

  /** Left and right stay paired when even buffers are joined. */
  lemma FramesAppend(a: seq<real>, b: seq<real>)
    requires |a| % 2 == 0
    ensures Frames(a + b) == Frames(a) + Frames(b)
  {
    assert forall i :: 0 <= i < |b| / 2 ==> (a + b)[2 * (|a| / 2 + i)] == b[2 * i];
  }

  /** The virtual input frame `i` of interleaved samples: -1 is the carried one. */
  function InputFrame(hist: Frame, input: seq<real>, i: int): (f: Frame)
    requires |input| >= 2
    ensures f == FrameAt(hist, Frames(input), i)
  {
    var n := |input| / 2;
    if i < 0 then hist
    else
      var j := if i < n - 1 then i else n - 1;
      Frame(input[j * 2], input[j * 2 + 1])
  }

  /** The reading loop of `resample_stereo`. */
  method ReadOut(hist: Frame, input: seq<real>, pos: real, ratio: real) returns (out: seq<real>, end: real)
    requires |input| >= 2 && ratio > 0.0
    ensures out == Interleave(Outputs(hist, Frames(input), pos, ratio))
    ensures end == EndPos(pos, Limit(Frames(input)), ratio)
  {
    var n := |input| / 2;
    ghost var frames, done := Frames(input), [];
    out, end := [], pos;
    var limit := (n - 1) as real;
    while end < limit
      invariant out == Interleave(done)
      invariant done + Outputs(hist, frames, end, ratio) == Outputs(hist, frames, pos, ratio)
      invariant EndPos(end, limit, ratio) == EndPos(pos, limit, ratio)
      decreases |Outputs(hist, frames, end, ratio)|
    {
      var i0 := end.Floor;
      var f := Lerp(InputFrame(hist, input, i0), InputFrame(hist, input, i0 + 1), end - i0 as real);
      InterleaveAppend(done, [Output(hist, frames, end)]);
      done := done + [Output(hist, frames, end)];
      out := out + [f.l];
      out := out + [f.r];
      end := end + ratio;
    }
    assert done + [] == done;
  }

  /** The state that is carried across calls. */
  class Resampler {
    var srcRate: nat
    var pos: real
    var hist: Frame

    constructor ()
      ensures Current() == State(0, 0.0, Frame(0.0, 0.0))
    {
      srcRate, pos, hist := 0, 0.0, Frame(0.0, 0.0);
    }

    function Current(): State
      reads this
    {
      State(srcRate, pos, hist)
    }

    /** `resample_stereo`, on interleaved samples; the callers let no zero rate through. */
    method ResampleStereo(src: nat, dst: nat, input: seq<real>) returns (out: seq<real>)
      requires src > 0 && dst > 0
      modifies this
      ensures var (frames, after) := Resample(old(Current()), src, Ratio(src, dst), Frames(input));
              out == Interleave(frames) && Current() == after
    {
      var n := |input| / 2;
      if n == 0 {
        assert Frames(input) == [];
        return [];
      }
      if srcRate != src {
        srcRate := src;
        pos := 0.0;
        hist := Frame(0.0, 0.0);
      }
      var ratio := Ratio(src, dst);
      var end;
      out, end := ReadOut(hist, input, pos, ratio);
      hist := Frame(input[(n - 1) * 2], input[(n - 1) * 2 + 1]);
      pos := end - n as real;
    }
  }
}
