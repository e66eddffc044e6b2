/** The host audio rings: guest samples are appended and the oldest dropped, menu sounds are appended
    while there is room, and the device callback drains both, mixing them frame by frame. */
module AudioRings {
  import opened Wrappers
  import opened RustInt
  import opened Resampler

  const MAX_RING_SAMPLES := 48_000 * 2 / 4
  const MAX_UI_RING_SAMPLES := 48_000 * 2 * 2

  function Min(a: nat, b: nat): nat {
    if a < b then a else b
  }

  function Clamp(x: real): (y: real)
    ensures -1.0 <= y <= 1.0
  {
    if x < -1.0 then -1.0 else if x > 1.0 then 1.0 else x
  }

  /** The guest ring after a submission: the newest samples win. */
  function Push<T>(ring: seq<T>, samples: seq<T>): (r: seq<T>)
    ensures |r| <= MAX_RING_SAMPLES
  {
    var all := ring + samples;
    if |all| > MAX_RING_SAMPLES then all[|all| - MAX_RING_SAMPLES..] else all
  }

  /** What the menu ring still takes of a clip. */
  function Accepted(ring: seq<real>, samples: seq<real>): seq<real> {
    var budget := if |ring| < MAX_UI_RING_SAMPLES then MAX_UI_RING_SAMPLES - |ring| else 0;
    samples[..Min(budget, |samples|)]
  }

  /** The ring after `frames` stereo frames have been popped. */
  function Drained<T>(ring: seq<T>, frames: nat): seq<T> {
    ring[Min(2 * frames, |ring|)..]
  }

  /** Sample `i` counted from the front, or silence. */
  function At(ring: seq<real>, i: nat): real {
    if i < |ring| then ring[i] else 0.0
  }

  /** What the device gets on channel `ch` of its frame `k`: left and right of the k-th frame of each
      ring, mixed, and silence on any further channel. */
  function Mixed(ring: seq<real>, ui: seq<real>, gain: real, k: nat, ch: nat): real {
    if ch < 2 then Amplified(At(ring, 2 * k + ch), At(ui, 2 * k + ch), gain) else 0.0
  }

  function Amplified(guest: real, ui: real, gain: real): real {
    Clamp((guest + ui) * gain)
  }

  /** One device frame, cut to `n` channels. */
  function DeviceFrame(l: real, r: real, n: nat): seq<real> {
    seq(n, i => if i == 0 then l else if i == 1 then r else 0.0)
  }

  /** A device buffer of `n` samples on `c` channels, the last frame possibly short. */
  function Buffer(ring: seq<real>, ui: seq<real>, gain: real, c: nat, n: nat): (b: seq<real>)
    requires c > 0
    ensures |b| == n
    decreases n
  {
    if n == 0 then []
    else
      DeviceFrame(Mixed(ring, ui, gain, 0, 0), Mixed(ring, ui, gain, 0, 1), Min(c, n))
      + Buffer(Drained(ring, 1), Drained(ui, 1), gain, c, n - Min(c, n))
  }

  /** A ring after such a buffer. */
  function AfterBuffer(ring: seq<real>, c: nat, n: nat): seq<real>
    requires c > 0
    decreases n
  {
    if n == 0 then ring else AfterBuffer(Drained(ring, 1), c, n - Min(c, n))
  }

  class AudioOutput {
    var ring: seq<real>
    var uiRing: seq<real>
    var ready: bool
    var enabled: bool
    var volume: real
    var deviceRate: nat
    var submitCalls: nat
    const resampler: Resampler

    constructor ()
      ensures ring == uiRing == [] && !ready && enabled && fresh(resampler)
    {
      ring, uiRing, ready, enabled, volume, deviceRate, submitCalls := [], [], false, true, 0.0, 0, 0;
      resampler := new Resampler();
    }

    /** The samples a submission adds: resampled when the device runs at another rate. */
    function Resampled(st: State, srcRate: nat, samples: seq<real>): (seq<real>, State)
      reads this
    {
      if srcRate == 0 || deviceRate == 0 || srcRate == deviceRate then (samples, st)
      else
        var (frames, after) := Resample(st, srcRate, Ratio(srcRate, deviceRate), Frames(samples));
        (Interleave(frames), after)
    }

    method Submit(srcRate: nat, samples: seq<real>)
      modifies this`ring, this`submitCalls, resampler
      ensures submitCalls == old(submitCalls) + 1
      ensures ready && enabled ==>
                var (added, after) := Resampled(old(resampler.Current()), srcRate, samples);
                ring == Push(old(ring), added) && resampler.Current() == after
      ensures !(ready && enabled) ==> ring == old(ring) && resampler.Current() == old(resampler.Current())
    {
      submitCalls := submitCalls + 1;
      if !ready || !enabled {
        return;
      }
      var frames := samples;
      if !(srcRate == 0 || deviceRate == 0 || srcRate == deviceRate) {
        frames := resampler.ResampleStereo(srcRate, deviceRate, samples);
      }
      ring := ring + frames;
      if |ring| > MAX_RING_SAMPLES {
        var excess := |ring| - MAX_RING_SAMPLES;
        ring := ring[excess..];
      }
    }

    /** A menu sound: resampled on its own, and cut to what the ring still takes. */
    method PlayUi(srcRate: nat, samples: seq<real>)
      modifies this`uiRing
      ensures ready && enabled ==>
                var clip := Resampled(State(0, 0.0, Frame(0.0, 0.0)), srcRate, samples).0;
                uiRing == old(uiRing) + Accepted(old(uiRing), clip)
      ensures !(ready && enabled) ==> uiRing == old(uiRing)
    {
      if !ready || !enabled {
        return;
      }
      var frames := samples;
      if !(srcRate == 0 || deviceRate == 0 || srcRate == deviceRate) {
        var state := new Resampler();
        frames := state.ResampleStereo(srcRate, deviceRate, samples);
      }
      var budget := if |uiRing| < MAX_UI_RING_SAMPLES then MAX_UI_RING_SAMPLES - |uiRing| else 0;
      uiRing := uiRing + frames[..Min(budget, |frames|)];
    }

    function Gain(): real
      reads this
    {
      if enabled then volume else 0.0
    }

    /** `pop_front().unwrap_or(0.0)` on the guest ring. */
    method PopGuest() returns (x: real)
      modifies this`ring
      ensures x == At(old(ring), 0) && ring == old(ring)[Min(1, |old(ring)|)..]
    {
      x := 0.0;
      if |ring| > 0 {
        x, ring := ring[0], ring[1..];
      }
    }

    /** The same on the menu ring. */
    method PopUi() returns (x: real)
      modifies this`uiRing
      ensures x == At(old(uiRing), 0) && uiRing == old(uiRing)[Min(1, |old(uiRing)|)..]
    {
      x := 0.0;
      if |uiRing| > 0 {
        x, uiRing := uiRing[0], uiRing[1..];
      }
    }

    /** One device frame: both rings move on by one stereo frame. */
    method PopFrame() returns (l: real, r: real)
      modifies this`ring, this`uiRing
      ensures l == Mixed(old(ring), old(uiRing), Gain(), 0, 0)
      ensures r == Mixed(old(ring), old(uiRing), Gain(), 0, 1)
      ensures ring == Drained(old(ring), 1) && uiRing == Drained(old(uiRing), 1)
    {
      PoppedTwice(ring);
      PoppedTwice(uiRing);
      var uiL := PopUi();
      var uiR := PopUi();
      var guestL := PopGuest();
      l := Amplified(guestL, uiL, Gain());
      var guestR := PopGuest();
      r := Amplified(guestR, uiR, Gain());
    }

    /** The device callback, frame by frame. */
    method Fill(out: array<real>, channels: nat)
      modifies out, this`ring, this`uiRing
      ensures var c := if channels == 0 then 1 else channels;
              && ring == AfterBuffer(old(ring), c, out.Length)
              && uiRing == AfterBuffer(old(uiRing), c, out.Length)
              && out[..] == Buffer(old(ring), old(uiRing), Gain(), c, out.Length)
    {
      var c := if channels == 0 then 1 else channels;
      ghost var gain := Gain();
      ghost var want := Filling([], ring, uiRing, gain, c, out.Length);
      var start := 0;
      ghost var all := Buffer(ring, uiRing, gain, c, out.Length);
      assert out[..0] == [] && [] + all == all;
      while start < out.Length
        invariant 0 <= start <= out.Length && Gain() == gain
        invariant Filling(out[..start], ring, uiRing, gain, c, out.Length - start) == want
      {
        FrameWritten(out[..start], ring, uiRing, gain, c, out.Length - start);
        var l, r := PopFrame();
        var n := Min(c, out.Length - start);
        WriteFrame(out, start, n, l, r);
        start := start + n;
      }
      assert out[..] == out[..start] + [];
    }
  }

  /** Two samples popped one after the other are the front frame. */
  lemma PoppedTwice(ring: seq<real>)
    ensures var once := ring[Min(1, |ring|)..];
            At(once, 0) == At(ring, 1) && once[Min(1, |once|)..] == Drained(ring, 1)
  {
  }

  /** What a buffer will hold, and the rings after it, when so much is written and so much is left. */
  function Filling(written: seq<real>, ring: seq<real>, ui: seq<real>, gain: real, c: nat, left: nat)
    : (seq<real>, seq<real>, seq<real>)
    requires c > 0
  {
    (written + Buffer(ring, ui, gain, c, left), AfterBuffer(ring, c, left), AfterBuffer(ui, c, left))
  }

  /** One frame written: what is left to write is the buffer of the drained rings. */
  lemma FrameWritten(written: seq<real>, ring: seq<real>, ui: seq<real>, gain: real, c: nat, left: nat)
    requires c > 0 && left > 0
    ensures var n := Min(c, left);
            var frame := DeviceFrame(Mixed(ring, ui, gain, 0, 0), Mixed(ring, ui, gain, 0, 1), n);
            Filling(written, ring, ui, gain, c, left)
            == Filling(written + frame, Drained(ring, 1), Drained(ui, 1), gain, c, left - n)
  {
    var n := Min(c, left);
    var frame := DeviceFrame(Mixed(ring, ui, gain, 0, 0), Mixed(ring, ui, gain, 0, 1), n);
    AppendAssociates(written, frame, Buffer(Drained(ring, 1), Drained(ui, 1), gain, c, left - n));
  }

  /** The channels of one device frame. */
  method WriteFrame(out: array<real>, start: nat, n: nat, l: real, r: real)
    requires start + n <= out.Length
    modifies out
    ensures out[..start + n] == old(out[..start]) + DeviceFrame(l, r, n)
  {
    for i := 0 to n
      invariant out[..start + i] == old(out[..start]) + DeviceFrame(l, r, i)
    {
      out[start + i] := if i == 0 then l else if i == 1 then r else 0.0;
    }
  }

  /** Device frames in a buffer, the short one included. */
  function FrameCount(length: nat, c: nat): nat
    requires c > 0
  {
    (length + c - 1) / c
  }

  /** Sample by sample: position `i` of a buffer is channel `i % c` of the device frame `i / c`, and
      each ring moves on by the frames of the buffer. */
  lemma {:induction false} BufferAt(ring: seq<real>, ui: seq<real>, gain: real, c: nat, n: nat, i: nat)
    requires c > 0 && i < n
    ensures Buffer(ring, ui, gain, c, n)[i] == Mixed(ring, ui, gain, i / c, i % c)
    decreases n
  {
    if i < c {
      Quotient(i, c, 0, i);
    } else {
      BufferAt(Drained(ring, 1), Drained(ui, 1), gain, c, n - c, i - c);
      DivStep(i, c);
      NextFrame(ring, ui, gain, (i - c) / c, (i - c) % c);
    }
  }

  lemma NextFrame(ring: seq<real>, ui: seq<real>, gain: real, k: nat, ch: nat)
    ensures Mixed(Drained(ring, 1), Drained(ui, 1), gain, k, ch) == Mixed(ring, ui, gain, k + 1, ch)
  {
    if ch < 2 {
      assert At(Drained(ring, 1), 2 * k + ch) == At(ring, 2 * (k + 1) + ch);
      assert At(Drained(ui, 1), 2 * k + ch) == At(ui, 2 * (k + 1) + ch);
    }
  }

  lemma {:induction false} AfterBufferIs(ring: seq<real>, c: nat, n: nat)
    requires c > 0
    ensures AfterBuffer(ring, c, n) == Drained(ring, FrameCount(n, c))
    decreases n
  {
    DivStep(n + c - 1, c);
    if n == 0 {
      Quotient(c - 1, c, 0, c - 1);
    } else if n <= c {
      Quotient(n - 1, c, 0, n - 1);
    } else {
      AfterBufferIs(Drained(ring, 1), c, n - c);
    }
  }

  // ---- Whole runs.

  datatype Event = Submitted(samples: seq<real>) | Played(clip: seq<real>) | Filled(frames: nat)

  datatype Rings = Rings(guest: seq<real>, ui: seq<real>)

  function Step(s: Rings, e: Event): Rings {
    match e
    case Submitted(samples) => Rings(Push(s.guest, samples), s.ui)
    case Played(clip) => Rings(s.guest, s.ui + Accepted(s.ui, clip))
    case Filled(frames) => Rings(Drained(s.guest, frames), Drained(s.ui, frames))
  }

  function Run(events: seq<Event>): Rings {
    if events == [] then Rings([], []) else Step(Run(events[..|events| - 1]), events[|events| - 1])
  }

  /** Every guest sample ever submitted, in order. */
  function GuestStream(events: seq<Event>): seq<real> {
    if events == [] then [] else GuestStream(events[..|events| - 1]) + GuestPart(events[|events| - 1])
  }

  function GuestPart(e: Event): seq<real> {
    match e
    case Submitted(samples) => samples
    case _ => []
  }

  /** Every menu sample ever accepted, in order. */
  function UiStream(events: seq<Event>): seq<real> {
    if events == [] then []
    else
      var before := events[..|events| - 1];
      UiStream(before) + UiPart(Run(before), events[|events| - 1])
  }

  function UiPart(s: Rings, e: Event): seq<real> {
    match e
    case Played(clip) => Accepted(s.ui, clip)
    case _ => []
  }

  /** What the callers keep to: whole stereo frames only. */
  predicate WholeFrames(e: Event) {
    match e
    case Submitted(samples) => |samples| % 2 == 0
    case Played(clip) => |clip| % 2 == 0
    case Filled(_) => true
  }

  predicate SuffixOf(ring: seq<real>, stream: seq<real>) {
    |ring| <= |stream| && ring == stream[|stream| - |ring|..]
  }

  predicate Good(s: Rings, g: seq<real>, u: seq<real>) {
    && |s.guest| <= MAX_RING_SAMPLES && |s.ui| <= MAX_UI_RING_SAMPLES
    && SuffixOf(s.guest, g) && SuffixOf(s.ui, u)
  }

  lemma StepGood(s: Rings, g: seq<real>, u: seq<real>, e: Event)
    requires Good(s, g, u)
    ensures Good(Step(s, e), g + GuestPart(e), u + UiPart(s, e))
  {
    match e
    case Submitted(samples) => Appended(s.guest, g, samples); assert u + [] == u;
    case Played(clip) => Appended(s.ui, u, Accepted(s.ui, clip)); assert g + [] == g;
    case Filled(_) => assert g + [] == g && u + [] == u;
  }

  lemma Appended(ring: seq<real>, stream: seq<real>, samples: seq<real>)
    requires SuffixOf(ring, stream)
    ensures SuffixOf(ring + samples, stream + samples) && SuffixOf(Push(ring, samples), stream + samples)
  {
    assert (stream + samples)[|stream| - |ring|..] == ring + samples;
  }

  /** Over any run, the rings stay within bounds and hold the newest samples of their streams. */
  lemma {:induction false} RingsHoldSuffixes(events: seq<Event>)
    ensures Good(Run(events), GuestStream(events), UiStream(events))
    decreases |events|
  {
    if events != [] {
      var before := events[..|events| - 1];
      RingsHoldSuffixes(before);
      StepGood(Run(before), GuestStream(before), UiStream(before), events[|events| - 1]);
    }
  }

  predicate Even(s: seq<real>) {
    |s| % 2 == 0
  }

  lemma StepEven(s: Rings, e: Event)
    requires Even(s.guest) && Even(s.ui) && WholeFrames(e) && |s.ui| <= MAX_UI_RING_SAMPLES
    ensures Even(Step(s, e).guest) && Even(Step(s, e).ui) && Even(GuestPart(e)) && Even(UiPart(s, e))
  {
  }

  /** Over any run of whole frames, both rings and both streams are whole frames. */
  lemma {:induction false} RingsStayEven(events: seq<Event>)
    requires forall e <- events :: WholeFrames(e)
    ensures Even(Run(events).guest) && Even(Run(events).ui)
    ensures Even(GuestStream(events)) && Even(UiStream(events))
    decreases |events|
  {
    if events != [] {
      var before, last := events[..|events| - 1], events[|events| - 1];
      assert last in events;
      RingsHoldSuffixes(before);
      RingsStayEven(before);
      StepEven(Run(before), last);
      EvenSum(GuestStream(before), GuestPart(last));
      EvenSum(UiStream(before), UiPart(Run(before), last));
    }
  }

  lemma EvenSum(a: seq<real>, b: seq<real>)
    requires Even(a) && Even(b)
    ensures Even(a + b)
  {
  }

  /** So channels are never swapped: after any run of whole frames, frame `k` of either ring is a whole
      frame of its stream (the left sample at an even position, the right one after it), or silence. */
  lemma ChannelsNeverSwap(events: seq<Event>, k: nat)
    requires forall e <- events :: WholeFrames(e)
    ensures FrameOf(Run(events).guest, GuestStream(events), k)
    ensures FrameOf(Run(events).ui, UiStream(events), k)
  {
    RingsHoldSuffixes(events);
    RingsStayEven(events);
    Aligned(Run(events).guest, GuestStream(events), k);
    Aligned(Run(events).ui, UiStream(events), k);
  }

  lemma Aligned(ring: seq<real>, stream: seq<real>, k: nat)
    requires SuffixOf(ring, stream) && Even(ring) && Even(stream)
    ensures FrameOf(ring, stream, k)
  {
    var i := |stream| - |ring| + 2 * k;
    assert i % 2 == 0;
    assert 2 * k < |ring| ==> ring[2 * k] == stream[i];
    assert 2 * k + 1 < |ring| ==> ring[2 * k + 1] == stream[i + 1];
  }

  predicate FrameOf(ring: seq<real>, stream: seq<real>, k: nat) {
    var i := |stream| - |ring| + 2 * k;
    && 0 <= i && i % 2 == 0 && (i < |stream| ==> i + 1 < |stream|)
    && At(ring, 2 * k) == At(stream, i) && At(ring, 2 * k + 1) == At(stream, i + 1)
  }

  /** What the device hears: after any run of whole frames, channels 0 and 1 of device frame `k` mix the left and
      the right sample of one whole frame of each stream, and a buffer takes as many frames as it has. */
  lemma DeviceHearsWholeFrames(events: seq<Event>, gain: real, c: nat, n: nat, p: nat)
    requires c > 0 && p < n && forall e <- events :: WholeFrames(e)
    ensures var s, guest, ui := Run(events), GuestStream(events), UiStream(events);
            && StartOf(guest, s.guest, p / c) % 2 == 0 && StartOf(ui, s.ui, p / c) % 2 == 0
            && Buffer(s.guest, s.ui, gain, c, n)[p] == Heard(s, guest, ui, gain, p / c, p % c)
            && Step(s, Filled(FrameCount(n, c))) == Rings(AfterBuffer(s.guest, c, n), AfterBuffer(s.ui, c, n))
  {
    ChannelsNeverSwap(events, p / c);
    HeardInBuffer(Run(events), GuestStream(events), UiStream(events), gain, c, n, p);
  }

  lemma HeardInBuffer(s: Rings, guest: seq<real>, ui: seq<real>, gain: real, c: nat, n: nat, p: nat)
    requires c > 0 && p < n && FrameOf(s.guest, guest, p / c) && FrameOf(s.ui, ui, p / c)
    ensures StartOf(guest, s.guest, p / c) % 2 == 0 && StartOf(ui, s.ui, p / c) % 2 == 0
    ensures Buffer(s.guest, s.ui, gain, c, n)[p] == Heard(s, guest, ui, gain, p / c, p % c)
    ensures Step(s, Filled(FrameCount(n, c))) == Rings(AfterBuffer(s.guest, c, n), AfterBuffer(s.ui, c, n))
  {
    BufferAt(s.guest, s.ui, gain, c, n, p);
    HeardFrame(s, guest, ui, gain, p / c, p % c);
    AfterBufferIs(s.guest, c, n);
    AfterBufferIs(s.ui, c, n);
  }

  /** Where frame `k` of a ring starts in its stream. */
  function StartOf(stream: seq<real>, ring: seq<real>, k: nat): int {
    |stream| - |ring| + 2 * k
  }

  function SampleAt(stream: seq<real>, i: int): real {
    if 0 <= i < |stream| then stream[i] else 0.0
  }

  /** Channel `ch` of the k-th frames that the rings hold of their streams, mixed. */
  function Heard(s: Rings, guest: seq<real>, ui: seq<real>, gain: real, k: nat, ch: nat): real {
    if ch < 2 then
      Amplified(SampleAt(guest, StartOf(guest, s.guest, k) + ch), SampleAt(ui, StartOf(ui, s.ui, k) + ch), gain)
    else 0.0
  }

  lemma HeardFrame(s: Rings, guest: seq<real>, ui: seq<real>, gain: real, k: nat, ch: nat)
    requires FrameOf(s.guest, guest, k) && FrameOf(s.ui, ui, k)
    ensures Mixed(s.guest, s.ui, gain, k, ch) == Heard(s, guest, ui, gain, k, ch)
    ensures StartOf(guest, s.guest, k) % 2 == 0 && StartOf(ui, s.ui, k) % 2 == 0
  {
    if ch < 2 {
      FrameSample(s.guest, guest, k, ch);
      FrameSample(s.ui, ui, k, ch);
    }
  }

  lemma FrameSample(ring: seq<real>, stream: seq<real>, k: nat, ch: nat)
    requires FrameOf(ring, stream, k) && ch < 2
    ensures At(ring, 2 * k + ch) == SampleAt(stream, StartOf(stream, ring, k) + ch)
  {
    assert ch == 0 || ch == 1;
  }

  // ---- Submissions of any length: exactly which ones keep the channels.

  /** Where sample `j` of a submission of `n` comes to stand; samples that are not kept are before 0. */
  function Place(length: nat, n: nat, j: nat): int {
    length - Excess(length, n) + j
  }

  function Excess(length: nat, n: nat): nat {
    if length + n > MAX_RING_SAMPLES then length + n - MAX_RING_SAMPLES else 0
  }

  /** Sample `j`, if it is kept, stands at a ring position of its own channel. */
  predicate LandsAt(ring: seq<real>, samples: seq<real>, j: nat)
    requires j < |samples|
  {
    var i := Place(|ring|, |samples|, j);
    0 <= i ==> i < |Push(ring, samples)| && Push(ring, samples)[i] == samples[j] && i % 2 == j % 2
  }

  predicate Lands(ring: seq<real>, samples: seq<real>) {
    forall j :: 0 <= j < |samples| ==> LandsAt(ring, samples, j)
  }

  /** A submission lands on its own channels exactly if its start is at an even position, or its end is when the
      ring overflows. */
  lemma LandsIff(ring: seq<real>, samples: seq<real>)
    requires samples != []
    ensures Lands(ring, samples) <==>
            if |ring| + |samples| > MAX_RING_SAMPLES then |samples| % 2 == 0 else |ring| % 2 == 0
  {
    var length, n := |ring|, |samples|;
    StartParity(length, n);
    if Place(length, n, 0) % 2 == 0 {
      forall j | 0 <= j < n
        ensures LandsAt(ring, samples, j)
      {
        Pushed(ring, samples, j);
        SameParity(Place(length, n, 0), j);
      }
    } else {
      SameParity(Place(length, n, 0), n - 1);
      assert !LandsAt(ring, samples, n - 1);
    }
  }

  lemma Pushed(ring: seq<real>, samples: seq<real>, j: nat)
    requires j < |samples|
    ensures var i := Place(|ring|, |samples|, j);
            0 <= i ==> i < |Push(ring, samples)| && Push(ring, samples)[i] == samples[j]
  {
  }

  lemma SameParity(start: int, j: int)
    ensures (start + j) % 2 == j % 2 <==> start % 2 == 0
  {
  }

  lemma StartParity(length: nat, n: nat)
    requires n > 0
    ensures Place(length, n, 0) % 2 == 0 <==> if length + n > MAX_RING_SAMPLES then n % 2 == 0 else length % 2 == 0
    ensures Place(length, n, n - 1) >= 0
  {
  }

  datatype Sample = Sample(value: real, channel: nat)

  /** A submission, each sample with the channel it is meant for. */
  function Tagged(samples: seq<real>): seq<Sample> {
    seq(|samples|, j requires 0 <= j < |samples| => Sample(samples[j], j % 2))
  }

  /** The guest ring after a run, with the channels its samples are meant for. */
  function TaggedRing(events: seq<Event>): seq<Sample> {
    if events == [] then []
    else
      var before := TaggedRing(events[..|events| - 1]);
      match events[|events| - 1]
      case Submitted(samples) => Push(before, Tagged(samples))
      case Played(_) => before
      case Filled(frames) => Drained(before, frames)
  }

  predicate SameSamples(tagged: seq<Sample>, ring: seq<real>) {
    |tagged| == |ring| && forall i :: 0 <= i < |ring| ==> tagged[i].value == ring[i]
  }

  lemma {:induction false} TaggedIsGuest(events: seq<Event>)
    ensures SameSamples(TaggedRing(events), Run(events).guest)
    decreases |events|
  {
    if events != [] {
      var before := events[..|events| - 1];
      TaggedIsGuest(before);
      SameStep(TaggedRing(before), Run(before).guest, events[|events| - 1]);
    }
  }

  lemma SameStep(tagged: seq<Sample>, ring: seq<real>, e: Event)
    requires SameSamples(tagged, ring)
    ensures match e
            case Submitted(samples) => SameSamples(Push(tagged, Tagged(samples)), Push(ring, samples))
            case Played(_) => true
            case Filled(frames) => SameSamples(Drained(tagged, frames), Drained(ring, frames))
  {
    match e
    case Submitted(samples) =>
      SameTail(tagged + Tagged(samples), ring + samples, Excess(|ring|, |samples|));
    case Played(_) =>
    case Filled(frames) => SameTail(tagged, ring, Min(2 * frames, |ring|));
  }

  lemma SameTail(tagged: seq<Sample>, ring: seq<real>, k: nat)
    requires SameSamples(tagged, ring) && k <= |ring|
    ensures SameSamples(tagged[k..], ring[k..])
    ensures tagged[0..] == tagged && ring[0..] == ring
  {
  }

  /** Every sample is where its channel is played. */
  predicate InPlace(ring: seq<Sample>) {
    forall i :: 0 <= i < |ring| ==> ring[i].channel == i % 2
  }

  /** What a caller can check on the lengths: the submission starts on the left, or, when the ring overflows, fills
      it with whole frames. */
  predicate Keeps(length: nat, n: nat) {
    || n == 0
    || if length + n > MAX_RING_SAMPLES then n % 2 == 0 && (n >= MAX_RING_SAMPLES || length % 2 == 0)
       else length % 2 == 0
  }

  /** The channel of position `i` of a ring of `length` samples in place and a submission after it. */
  function ChannelAt(length: nat, i: nat): nat {
    if i < length then i % 2 else (i - length) % 2
  }

  lemma PushedChannel(ring: seq<Sample>, samples: seq<real>, i: nat)
    requires InPlace(ring) && i < |Push(ring, Tagged(samples))|
    ensures Push(ring, Tagged(samples))[i].channel == ChannelAt(|ring|, Excess(|ring|, |samples|) + i)
  {
  }

  lemma KeepsAll(length: nat, n: nat, i: nat)
    requires Keeps(length, n) && length <= MAX_RING_SAMPLES && Excess(length, n) + i < length + n
    ensures ChannelAt(length, Excess(length, n) + i) == i % 2
  {
  }

  lemma MissesOne(length: nat, n: nat) returns (i: nat)
    requires !Keeps(length, n) && length <= MAX_RING_SAMPLES
    ensures Excess(length, n) + i < length + n && ChannelAt(length, Excess(length, n) + i) != i % 2
  {
    i := if Excess(length, n) == 0 then length else if n % 2 == 1 then MAX_RING_SAMPLES - 1 else 0;
  }

  lemma PushInPlace(ring: seq<Sample>, samples: seq<real>)
    requires InPlace(ring) && |ring| <= MAX_RING_SAMPLES
    ensures InPlace(Push(ring, Tagged(samples))) <==> Keeps(|ring|, |samples|)
  {
    if Keeps(|ring|, |samples|) {
      forall i | 0 <= i < |Push(ring, Tagged(samples))|
        ensures Push(ring, Tagged(samples))[i].channel == i % 2
      {
        PushedChannel(ring, samples, i);
        KeepsAll(|ring|, |samples|, i);
      }
    } else {
      var i := MissesOne(|ring|, |samples|);
      PushedChannel(ring, samples, i);
    }
  }

  lemma DrainInPlace(ring: seq<Sample>, frames: nat)
    requires InPlace(ring)
    ensures InPlace(Drained(ring, frames))
  {
  }

  predicate Placed(events: seq<Event>) {
    InPlace(TaggedRing(events))
  }

  /** At every point of a run. */
  ghost predicate Always(p: seq<Event> -> bool, events: seq<Event>) {
    forall k :: 0 <= k <= |events| ==> p(events[..k])
  }

  ghost predicate AllKeep(events: seq<Event>) {
    forall k :: 0 <= k < |events| && events[k].Submitted? ==> Keeps(|Run(events[..k]).guest|, |events[k].samples|)
  }

  /** The ring is in place all along a run exactly if every submission keeps it so on the length it finds. */
  lemma {:induction false} InPlaceIff(events: seq<Event>)
    ensures Always(Placed, events) <==> AllKeep(events)
    decreases |events|
  {
    if events == [] {
      assert Placed([]) && forall k :: 0 <= k <= |events| ==> events[..k] == [];
    } else {
      var before := events[..|events| - 1];
      InPlaceIff(before);
      RingsHoldSuffixes(before);
      TaggedIsGuest(before);
      StepInPlace(before, events);
      AlwaysFromBefore(Placed, before, events);
      KeepFromBefore(before, events);
    }
  }

  lemma AlwaysFromBefore(p: seq<Event> -> bool, before: seq<Event>, events: seq<Event>)
    requires events != [] && before == events[..|events| - 1]
    ensures Always(p, events) <==> Always(p, before) && p(events)
    ensures Always(p, before) ==> p(before)
  {
    assert events[..|events|] == events && before[..|before|] == before;
    assert forall k :: 0 <= k < |events| ==> before[..k] == events[..k];
  }

  lemma KeepFromBefore(before: seq<Event>, events: seq<Event>)
    requires events != [] && before == events[..|events| - 1]
    ensures var e := events[|events| - 1];
            AllKeep(events) <==>
            AllKeep(before) && (e.Submitted? ==> Keeps(|Run(before).guest|, |e.samples|))
  {
    assert forall k :: 0 <= k < |events| ==> before[..k] == events[..k];
    assert before[..|before|] == before;
  }

  lemma StepInPlace(before: seq<Event>, events: seq<Event>)
    requires events != [] && before == events[..|events| - 1]
    requires |TaggedRing(before)| == |Run(before).guest| <= MAX_RING_SAMPLES
    ensures var e := events[|events| - 1];
            InPlace(TaggedRing(before)) ==>
              (InPlace(TaggedRing(events)) <==> (e.Submitted? ==> Keeps(|Run(before).guest|, |e.samples|)))
  {
    var ring := TaggedRing(before);
    if InPlace(ring) {
      match events[|events| - 1]
      case Submitted(samples) => PushInPlace(ring, samples);
      case Played(_) =>
      case Filled(frames) => DrainInPlace(ring, frames);
    }
  }

  /** Whole frames always keep it. */
  lemma WholeFramesKeep(events: seq<Event>)
    requires forall e <- events :: WholeFrames(e)
    ensures AllKeep(events) && Always(Placed, events)
  {
    forall k | 0 <= k < |events| && events[k].Submitted?
      ensures Keeps(|Run(events[..k]).guest|, |events[k].samples|)
    {
      assert events[k] in events && forall e <- events[..k] :: e in events;
      RingsStayEven(events[..k]);
    }
    InPlaceIff(events);
  }

  /** One sample ahead of a whole frame is enough to leave it on the wrong channels. */
  lemma OneSampleMisplaces(x: real, l: real, r: real)
    ensures !Lands([x], [l, r]) && Push([x], [l, r]) == [x, l, r]
    ensures !InPlace(TaggedRing([Submitted([x]), Submitted([l, r])]))
  {
    LandsIff([x], [l, r]);
    var events := [Submitted([x]), Submitted([l, r])];
    assert events[..1] == [Submitted([x])] && events[..1][..0] == [];
    assert TaggedRing(events[..1]) == Tagged([x]);
    PushInPlace(Tagged([x]), [l, r]);
  }
}
