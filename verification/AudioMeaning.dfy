/** What the resampler and the device buffer give, in numbers: the rate, the interpolation and the mix. */
module AudioMeaning {
  import opened Resampler
  import opened AudioRings

  // The resampler, by what becomes of a straight line.

  /** Interleaved stereo whose left channel counts up from 0 and whose right channel counts down. */
  function Ramp(n: nat): (samples: seq<real>)
    ensures |samples| == 2 * n
  {
    seq(2 * n, i => if i % 2 == 0 then (i / 2) as real else -((i / 2) as real))
  }

  lemma RampFrames(n: nat, i: nat)
    requires i < n
    ensures |Frames(Ramp(n))| == n && Frames(Ramp(n))[i] == Frame(i as real, -(i as real))
  {
    assert 2 * i / 2 == i && (2 * i + 1) / 2 == i;
  }

  /** The time of output `k`, in input frames. */
  function TimeOf(k: nat, src: nat, dst: nat): real
    requires dst > 0
  {
    k as real * src as real / dst as real
  }

  const FRESH := State(0, 0.0, Frame(0.0, 0.0))

  /** From a fresh state a straight line stays one, at the new rate: output `k` is the line at the time `k * src / dst`,
      and there is one for each such time before the last input frame. */
  lemma RampResampled(src: nat, dst: nat, n: nat, k: nat)
    requires src > 0 && dst > 0 && n > 0
    ensures var out := Interleave(Resample(FRESH, src, Ratio(src, dst), Frames(Ramp(n))).0);
            && |out| % 2 == 0
            && (2 * k < |out| <==> TimeOf(k, src, dst) < (n - 1) as real)
            && (2 * k < |out| ==> out[2 * k] == TimeOf(k, src, dst) && out[2 * k + 1] == -TimeOf(k, src, dst))
  {
    var frames := Resample(FRESH, src, Ratio(src, dst), Frames(Ramp(n))).0;
    RampFrame(src, dst, n, k);
    if k < |frames| {
      InterleaveAt(frames, k);
    }
  }

  lemma RampFrame(src: nat, dst: nat, n: nat, k: nat)
    requires src > 0 && dst > 0 && n > 0
    ensures var frames := Resample(FRESH, src, Ratio(src, dst), Frames(Ramp(n))).0;
            && (k < |frames| <==> TimeOf(k, src, dst) < (n - 1) as real)
            && (k < |frames| ==> frames[k] == Frame(TimeOf(k, src, dst), -TimeOf(k, src, dst)))
  {
    var ratio, t := Ratio(src, dst), TimeOf(k, src, dst);
    RampFrames(n, 0);
    PosIsTime(k, src, dst, ratio);
    RampStep(Frames(Ramp(n)), n, ratio, k, t);
    RestartFresh(src, ratio, Frames(Ramp(n)));
  }

  lemma RestartFresh(src: nat, ratio: real, input: seq<Frame>)
    requires ratio > 0.0 && input != []
    ensures Resample(FRESH, src, ratio, input).0 == Outputs(FRESH.hist, input, 0.0, ratio)
  {
  }

  lemma RampStep(input: seq<Frame>, n: nat, ratio: real, k: nat, t: real)
    requires n > 0 && input == Frames(Ramp(n)) && |input| == n && ratio > 0.0 && PosAt(0.0, ratio, k) == t
    ensures var frames := Outputs(FRESH.hist, input, 0.0, ratio);
            (k < |frames| <==> t < (n - 1) as real) && (k < |frames| ==> frames[k] == Frame(t, -t))
  {
    OutputAt(FRESH.hist, input, 0.0, ratio, k);
    PosAtGrows(0.0, ratio, k);
    if t < (n - 1) as real {
      RampOutput(n, t);
    }
  }

  lemma PosIsTime(k: nat, src: nat, dst: nat, ratio: real)
    requires src > 0 && dst > 0 && ratio == Ratio(src, dst)
    ensures PosAt(0.0, ratio, k) == TimeOf(k, src, dst)
  {
    PosAtIs(0.0, ratio, k);
    Times(k, src, dst);
  }

  lemma Times(k: nat, src: nat, dst: nat)
    requires src > 0 && dst > 0
    ensures k as real * Ratio(src, dst) == TimeOf(k, src, dst)
  {
  }

  lemma RampOutput(n: nat, pos: real)
    requires n > 0 && 0.0 <= pos < (n - 1) as real
    ensures |Frames(Ramp(n))| == n && Output(FRESH.hist, Frames(Ramp(n)), pos) == Frame(pos, -pos)
  {
    var i := pos.Floor;
    RampFrames(n, i);
    RampFrames(n, i + 1);
    UnitSteps(i as real, pos - i as real);
  }

  lemma UnitSteps(x: real, t: real)
    ensures Lerp(Frame(x, -x), Frame(x + 1.0, -(x + 1.0)), t) == Frame(x + t, -(x + t))
  {
    assert (x + 1.0 - x) * t == t;
    assert (-(x + 1.0) - -x) * t == -t;
  }

  lemma {:induction false} InterleaveAt(frames: seq<Frame>, k: nat)
    requires k < |frames|
    ensures Interleave(frames)[2 * k] == frames[k].l && Interleave(frames)[2 * k + 1] == frames[k].r
    decreases k
  {
    if k > 0 {
      InterleaveAt(frames[1..], k - 1);
    }
  }

  /** Interleaving and taking frames are inverse on frames. */
  lemma FramesOfInterleave(frames: seq<Frame>)
    ensures Frames(Interleave(frames)) == frames
  {
    forall k | 0 <= k < |frames|
      ensures Frames(Interleave(frames))[k] == frames[k]
    {
      InterleaveAt(frames, k);
    }
  }

  /** A change of source rate forgets position and history; without one they count. */
  lemma RateChangeRestarts(st: State, src: nat, ratio: real, input: seq<Frame>)
    requires ratio > 0.0 && input != [] && src > 0
    ensures st.srcRate != src ==> Resample(st, src, ratio, input) == Resample(FRESH, src, ratio, input)
    ensures Resample(st, src, ratio, input).1.srcRate == src
  {
  }

  /** What the ring is given: the samples as they are, unless source and device run at two known rates. */
  lemma GivenSamples(output: AudioOutput, src: nat, n: nat, k: nat)
    requires n > 0
    ensures var out := output.Resampled(FRESH, src, Ramp(n)).0;
            if src == 0 || output.deviceRate == 0 || src == output.deviceRate then out == Ramp(n)
            else
              && (2 * k < |out| <==> TimeOf(k, src, output.deviceRate) < (n - 1) as real)
              && (2 * k < |out| ==> out[2 * k] == TimeOf(k, src, output.deviceRate)
                                    && out[2 * k + 1] == -TimeOf(k, src, output.deviceRate))
  {
    if src > 0 && output.deviceRate > 0 {
      RampResampled(src, output.deviceRate, n, k);
    }
  }

  // The device buffer.

  /** `y` is `x` where that lies between -1 and 1, and else the nearer end. */
  predicate Limited(y: real, x: real) {
    (-1.0 <= x <= 1.0 ==> y == x) && (x > 1.0 ==> y == 1.0) && (x < -1.0 ==> y == -1.0)
  }

  /** Channel `ch` of the frames that start at `g` and `u`: their sum at the gain, within bounds, or silence on a
      further channel. */
  predicate MixOf(y: real, guest: seq<real>, g: int, ui: seq<real>, u: int, gain: real, ch: nat) {
    if ch < 2 then Limited(y, Louder(Or0(guest, g + ch) + Or0(ui, u + ch), gain)) else y == 0.0
  }

  function Louder(x: real, gain: real): real {
    x * gain
  }

  lemma MixedIs(ring: seq<real>, ui: seq<real>, gain: real, k: nat, ch: nat)
    ensures MixOf(Mixed(ring, ui, gain, k, ch), ring, 2 * k, ui, 2 * k, gain, ch)
  {
    if ch < 2 {
      AmplifiedIs(At(ring, 2 * k + ch), At(ui, 2 * k + ch), gain);
    }
  }

  lemma AmplifiedIs(guest: real, ui: real, gain: real)
    ensures Limited(Amplified(guest, ui, gain), Louder(guest + ui, gain))
  {
  }

  /** Sample `p` of a device buffer is on channel `p % c` and mixes the rings' frames `p / c`. */
  lemma DeviceValue(ring: seq<real>, ui: seq<real>, gain: real, c: nat, n: nat, p: nat)
    requires c > 0 && p < n
    ensures MixOf(Buffer(ring, ui, gain, c, n)[p], ring, 2 * (p / c), ui, 2 * (p / c), gain, p % c)
  {
    FrameNumber(p, c);
    MixedIs(ring, ui, gain, p / c, p % c);
    BufferAt(ring, ui, gain, c, n, p);
  }

  lemma FrameNumber(p: nat, c: nat)
    requires c > 0
    ensures 0 <= p / c
  {
  }

  /** The same of the streams, after any run of whole frames: whole frames of both start at `g` and `u`. */
  lemma DeviceHearsStreams(events: seq<Event>, gain: real, c: nat, n: nat, p: nat) returns (g: nat, u: nat)
    requires c > 0 && p < n && forall e <- events :: WholeFrames(e)
    ensures g == |GuestStream(events)| - |Run(events).guest| + 2 * (p / c) && g % 2 == 0
    ensures u == |UiStream(events)| - |Run(events).ui| + 2 * (p / c) && u % 2 == 0
    ensures MixOf(Buffer(Run(events).guest, Run(events).ui, gain, c, n)[p],
                  GuestStream(events), g, UiStream(events), u, gain, p % c)
  {
    FrameNumber(p, c);
    RingsHoldSuffixes(events);
    DeviceHearsWholeFrames(events, gain, c, n, p);
    g, u := HeardIs(Run(events), GuestStream(events), UiStream(events), gain, p / c, p % c);
  }

  lemma HeardIs(s: Rings, guest: seq<real>, ui: seq<real>, gain: real, k: nat, ch: nat) returns (g: nat, u: nat)
    requires |s.guest| <= |guest| && |s.ui| <= |ui|
    ensures g == StartOf(guest, s.guest, k) == |guest| - |s.guest| + 2 * k
    ensures u == StartOf(ui, s.ui, k) == |ui| - |s.ui| + 2 * k
    ensures MixOf(Heard(s, guest, ui, gain, k, ch), guest, g, ui, u, gain, ch)
  {
    g, u := StartOf(guest, s.guest, k), StartOf(ui, s.ui, k);
    if ch < 2 {
      AmplifiedIs(SampleAt(guest, g + ch), SampleAt(ui, u + ch), gain);
    }
  }

  function Or0(stream: seq<real>, i: int): real {
    if 0 <= i < |stream| then stream[i] else 0.0
  }

  /** A disabled output is silent, an enabled one plays at its volume. */
  lemma DisabledIsSilent(output: AudioOutput, c: nat, n: nat, p: nat)
    requires c > 0 && p < n
    ensures output.enabled ==> output.Gain() == output.volume
    ensures !output.enabled ==> Buffer(output.ring, output.uiRing, output.Gain(), c, n)[p] == 0.0
  {
    DeviceValue(output.ring, output.uiRing, output.Gain(), c, n, p);
  }

  /** How much the rings take and give: the newest 24000 guest samples, menu samples up to 192000, two for a frame. */
  lemma RingLengths(ring: seq<real>, samples: seq<real>, frames: nat)
    ensures |Push(ring, samples)| == Min(|ring| + |samples|, 24_000)
    ensures Push(ring, samples) == (ring + samples)[|ring| + |samples| - |Push(ring, samples)|..]
    ensures Accepted(ring, samples) == samples[..|Accepted(ring, samples)|]
    ensures |ring| <= 192_000 ==> |ring + Accepted(ring, samples)| == Min(|ring| + |samples|, 192_000)
    ensures |ring| > 192_000 ==> Accepted(ring, samples) == []
    ensures Drained(ring, frames) == if 2 * frames < |ring| then ring[2 * frames..] else []
  {
  }
}
