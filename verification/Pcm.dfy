/** The PCM bridge between a WebSocket and the media loop: reframing of inbound
    messages into 960-sample frames through a bounded drop-newest queue, and
    slicing of outbound frames. */
module Pcm {
  import opened Bytes
  import opened Common

  const FRAME := 960
  const SLICE := 320
  const CAPACITY := 8

  type i16 = x: int | -0x8000 <= x < 0x8000

  // ----- samples and bytes -----

  function FromLe(lo: byte, hi: byte): (x: i16) {
    var u := U16(hi, lo);
    if u < 0x8000 then u else u - 0x1_0000
  }

  function ToLe(x: i16): (s: seq<byte>)
    ensures |s| == 2
  {
    var u := if x >= 0 then x else x + 0x1_0000;
    [u % 0x100, u / 0x100]
  }

  function Samples(b: seq<byte>): (r: seq<i16>)
    requires |b| % 2 == 0
  {
    if |b| == 0 then [] else [FromLe(b[0], b[1])] + Samples(b[2..])
  }

  function LeBytes(xs: seq<i16>): (b: seq<byte>)
    ensures |b| == 2 * |xs|
  {
    if |xs| == 0 then [] else ToLe(xs[0]) + LeBytes(xs[1..])
  }

  lemma LeRoundTrip(x: i16)
    ensures FromLe(ToLe(x)[0], ToLe(x)[1]) == x
  {}

  lemma {:induction false} SamplesRoundTrip(xs: seq<i16>)
    ensures Samples(LeBytes(xs)) == xs
  {
    if |xs| > 0 {
      LeRoundTrip(xs[0]);
      SamplesRoundTrip(xs[1..]);
      assert LeBytes(xs)[2..] == LeBytes(xs[1..]);
    }
  }

  /** Sample `k` of a message: its two bytes, low one first, in two's complement. */
  lemma {:induction false} SampleAt(b: seq<byte>, k: nat)
    requires |b| % 2 == 0 && 2 * k < |b|
    ensures |Samples(b)| == |b| / 2
    ensures var u := b[2 * k] as int + 0x100 * b[2 * k + 1] as int;
            Samples(b)[k] == if u < 0x8000 then u else u - 0x1_0000
    decreases |b|
  {
    SamplesCount(b);
    if k > 0 {
      SampleAt(b[2..], k - 1);
      assert b[2..][2 * (k - 1)] == b[2 * k] && b[2..][2 * (k - 1) + 1] == b[2 * k + 1];
    }
  }

  // ----- inbound: the bridge as a state machine -----

  /** What the bridge holds, and what has passed through it: every frame cut from
      the buffer, those the queue took, and those the media loop has read. */
  datatype Bridge = Bridge(
    acc: seq<i16>, queue: seq<seq<i16>>, open: bool,
    cut: seq<seq<i16>>, accepted: seq<seq<i16>>, taken: seq<seq<i16>>)

  const INIT := Bridge([], [], true, [], [], [])

  datatype Event = Binary(bytes: seq<byte>) | Take | Hangup

  function CutOne(s: Bridge): (r: Bridge)
    requires |s.acc| >= FRAME
  {
    var frame := s.acc[..FRAME];
    var room := s.open && |s.queue| < CAPACITY;
    Bridge(s.acc[FRAME..], if room then s.queue + [frame] else s.queue, s.open,
           s.cut + [frame], if room then s.accepted + [frame] else s.accepted, s.taken)
  }

  /** Cutting stops when the buffer is short, or after one frame if the media
      loop is gone. */
  function Drain(s: Bridge): (r: Bridge)
    decreases |s.acc|
  {
    if |s.acc| < FRAME then s
    else if !s.open then CutOne(s)
    else Drain(CutOne(s))
  }

  /** A message of odd length is ignored. */
  function MessageSamples(b: seq<byte>): (r: seq<i16>) { if |b| % 2 == 0 then Samples(b) else [] }

  function Next(s: Bridge, e: Event): (r: Bridge) {
    match e
    case Binary(b) => if |b| % 2 == 0 then Drain(s.(acc := s.acc + Samples(b))) else s
    case Take => if |s.queue| > 0 && s.open then s.(queue := s.queue[1..], taken := s.taken + [s.queue[0]]) else s
    case Hangup => s.(open := false)
  }

  function After(events: seq<Event>): (s: Bridge) {
    if |events| == 0 then INIT else Next(After(events[..|events| - 1]), events[|events| - 1])
  }

  function Input(events: seq<Event>): (r: seq<i16>) {
    if |events| == 0 then []
    else
      var n := |events| - 1;
      Input(events[..n]) + (match events[n] case Binary(b) => MessageSamples(b) case _ => [])
  }

  function Concat(frames: seq<seq<i16>>): (r: seq<i16>) {
    if |frames| == 0 then [] else Concat(frames[..|frames| - 1]) + frames[|frames| - 1]
  }

  /** `a` is `b` with some elements left out. */
  ghost predicate Within(a: seq<seq<i16>>, b: seq<seq<i16>>) {
    if |a| == 0 then true
    else if |b| == 0 then false
    else
      || (a[|a| - 1] == b[|b| - 1] && Within(a[..|a| - 1], b[..|b| - 1]))
      || Within(a, b[..|b| - 1])
  }

  lemma WithinGrows(a: seq<seq<i16>>, b: seq<seq<i16>>, f: seq<i16>)
    requires Within(a, b)
    ensures Within(a, b + [f]) && Within(a + [f], b + [f])
  {
    assert (a + [f])[..|a|] == a && (b + [f])[..|b|] == b;
  }

  /** What holds of the bridge whatever happened: no sample is lost or reordered in
      the cutting, all frames are full, the queue is bounded, and what the media
      loop reads is an in-order selection of what was cut. */
  ghost predicate Good(s: Bridge, input: seq<i16>) {
    && Concat(s.cut) + s.acc == input
    && (forall k :: 0 <= k < |s.cut| ==> |s.cut[k]| == 960)
    && |s.queue| <= 8
    && s.taken + s.queue == s.accepted
    && Within(s.accepted, s.cut)
  }

  lemma CutOneIsGood(s: Bridge, input: seq<i16>)
    requires Good(s, input) && |s.acc| >= FRAME
    ensures Good(CutOne(s), input)
  {
    var frame := s.acc[..FRAME];
    var r := CutOne(s);
    assert r.cut[..|s.cut|] == s.cut;
    assert Concat(r.cut) + r.acc == Concat(s.cut) + (frame + s.acc[FRAME..]);
    assert frame + s.acc[FRAME..] == s.acc;
    WithinGrows(s.accepted, s.cut, frame);
    assert s.taken + (s.queue + [frame]) == (s.taken + s.queue) + [frame];
  }

  lemma {:induction false} DrainIsGood(s: Bridge, input: seq<i16>)
    requires Good(s, input)
    ensures Good(Drain(s), input) && Drain(s).open == s.open && Drain(s).taken == s.taken
    ensures s.open ==> |Drain(s).acc| < FRAME
    ensures !s.open ==> |Drain(s).acc| == if |s.acc| >= FRAME then |s.acc| - FRAME else |s.acc|
    decreases |s.acc|
  {
    hide Good;
    if |s.acc| >= FRAME {
      CutOneIsGood(s, input);
      if s.open { DrainIsGood(CutOne(s), input); }
    }
  }

  predicate NeverHungUp(events: seq<Event>) { forall k :: 0 <= k < |events| ==> events[k] != Hangup }

  /** Over every run: all samples of the even-length messages are in the frames cut
      so far followed by the buffer; the media loop reads cut frames in order with
      at most eight waiting; and until it hangs up less than a frame is buffered. */
  lemma {:induction false} BridgeIsGood(events: seq<Event>)
    ensures Good(After(events), Input(events))
    ensures NeverHungUp(events) ==> After(events).open && |After(events).acc| < 960
  {
    if |events| == 0 {
      assert Good(INIT, []);
    } else {
      var n := |events| - 1;
      var s, input := After(events[..n]), Input(events[..n]);
      BridgeIsGood(events[..n]);
      match events[n]
      case Binary(b) =>
        if |b| % 2 == 0 {
          var more := s.(acc := s.acc + Samples(b));
          assert Concat(s.cut) + more.acc == input + Samples(b);
          DrainIsGood(more, Input(events));
        } else {
          assert input + [] == input;
        }
      case Take =>
        assert input + [] == input;
        if |s.queue| > 0 {
          assert s.taken + [s.queue[0]] + s.queue[1..] == s.taken + s.queue;
        }
      case Hangup =>
        assert input + [] == input;
    }
  }

  /** After a hang-up one message drains one frame only, so whether the buffer gets
      below a frame depends on how much it holds. */
  lemma BufferAfterMessageIff(s: Bridge, input: seq<i16>, b: seq<byte>)
    requires Good(s, input) && |b| % 2 == 0
    ensures |Next(s, Binary(b)).acc| < 960 <==> s.open || |s.acc| + |b| / 2 < 1920
  {
    hide Good;
    SamplesCount(b);
    var more := s.(acc := s.acc + Samples(b));
    GoodWithMore(s, input, Samples(b));
    DrainIsGood(more, input + Samples(b));
  }

  /** A run where that happens: a hang-up, then two frames in one message. */
  lemma BufferStaysFull(b: seq<byte>)
    requires |b| == 3840
    ensures |After([Hangup, Binary(b)]).acc| == 960
  {
    SamplesCount(b);
    var events := [Hangup, Binary(b)];
    assert events[..1] == [Hangup] && [Hangup][..0] == [];
    assert After([Hangup]) == INIT.(open := false);
    assert [] + Samples(b) == Samples(b);
  }

  lemma GoodWithMore(s: Bridge, input: seq<i16>, xs: seq<i16>)
    requires Good(s, input)
    ensures Good(s.(acc := s.acc + xs), input + xs)
  {
    assert Concat(s.cut) + (s.acc + xs) == Concat(s.cut) + s.acc + xs;
  }

  lemma {:induction false} SamplesCount(b: seq<byte>)
    requires |b| % 2 == 0
    ensures |Samples(b)| == |b| / 2
  {
    if |b| > 0 { SamplesCount(b[2..]); }
  }

  /** The full frames at the front of a buffer. */
  function Frames(acc: seq<i16>): (r: seq<seq<i16>>)
    decreases |acc|
  {
    if |acc| < 960 then [] else [acc[..960]] + Frames(acc[960..])
  }

  lemma OneThenMore(a: seq<seq<i16>>, f: seq<i16>, more: seq<seq<i16>>)
    ensures a + [f] + more == a + ([f] + more)
  {}

  /** What the queue takes of the frames a message completes: as many of the first
      ones as there is room for. The newest are the ones dropped, whole. */
  lemma {:induction false} NewestAreDropped(s: Bridge)
    requires s.open && |s.queue| <= 8
    ensures var r, frames := Drain(s), Frames(s.acc);
            var fit := frames[..Least(8 - |s.queue|, |frames|)];
            && r.cut == s.cut + frames && r.taken == s.taken
            && r.queue == s.queue + fit && r.accepted == s.accepted + fit
    decreases |s.acc|
  {
    if |s.acc| >= FRAME {
      var f, rest := s.acc[..FRAME], Frames(s.acc[FRAME..]);
      NewestAreDropped(CutOne(s));
      OneThenMore(s.cut, f, rest);
      if |s.queue| < CAPACITY {
        var fit := rest[..Least(CAPACITY - |s.queue| - 1, |rest|)];
        assert Frames(s.acc)[..|fit| + 1] == [f] + fit;
        OneThenMore(s.accepted, f, fit);
        OneThenMore(s.queue, f, fit);
      }
    }
  }

  // ----- outbound: slices -----

  function Slices(frame: seq<i16>): (r: seq<seq<i16>>)
    ensures forall k :: 0 <= k < |r| ==> 0 < |r[k]| <= SLICE
  {
    if |frame| == 0 then []
    else if |frame| <= SLICE then [frame]
    else [frame[..SLICE]] + Slices(frame[SLICE..])
  }

  /** All slices but the last have 320 samples, and the last has what is left: a frame
      of 960 gives three. */
  lemma {:induction false} SliceSizes(frame: seq<i16>, k: nat)
    ensures |Slices(frame)| == (|frame| + 319) / 320
    ensures k < |Slices(frame)| ==> |Slices(frame)[k]| == Least(320, |frame| - 320 * k)
    decreases |frame|
  {
    if |frame| > SLICE { SliceSizes(frame[SLICE..], if k > 0 then k - 1 else 0); }
  }

  function Messages(slices: seq<seq<i16>>): (r: seq<Event>)
    ensures |r| == |slices|
  {
    seq(|slices|, k requires 0 <= k < |slices| => Binary(LeBytes(slices[k])))
  }

  method ChunkBytes(chunk: seq<i16>) returns (bytes: seq<byte>)
    ensures bytes == LeBytes(chunk)
  {
    bytes := [];
    for k := 0 to |chunk|
      invariant bytes + LeBytes(chunk[k..]) == LeBytes(chunk)
    {
      assert chunk[k..][1..] == chunk[k + 1..];
      bytes := bytes + ToLe(chunk[k]);
    }
    assert chunk[|chunk|..] == [];
  }

  method SliceFrame(frame: seq<i16>) returns (messages: seq<Event>)
    ensures messages == Messages(Slices(frame))
  {
    messages := [];
    var rest := frame;
    while |rest| > 0
      invariant messages + Messages(Slices(rest)) == Messages(Slices(frame))
      decreases |rest|
    {
      var chunk := if |rest| <= SLICE then rest else rest[..SLICE];
      var bytes := ChunkBytes(chunk);
      ghost var tail := if |rest| <= SLICE then [] else rest[SLICE..];
      assert Slices(rest) == [chunk] + Slices(tail);
      assert Messages([chunk] + Slices(tail)) == [Binary(bytes)] + Messages(Slices(tail));
      messages := messages + [Binary(bytes)];
      rest := if |rest| <= SLICE then [] else rest[SLICE..];
    }
  }

  lemma MessageRoundTrip(xs: seq<i16>)
    ensures MessageSamples(LeBytes(xs)) == xs
  {
    SamplesRoundTrip(xs);
  }

  lemma {:induction false} InputOfMessages(slices: seq<seq<i16>>)
    ensures Input(Messages(slices)) == Concat(slices) && NeverHungUp(Messages(slices))
  {
    hide MessageSamples, LeBytes;
    if |slices| > 0 {
      var n := |slices| - 1;
      InputOfMessages(slices[..n]);
      var events := Messages(slices);
      assert events[..n] == Messages(slices[..n]) && events[n] == Binary(LeBytes(slices[n]));
      assert MessageSamples(LeBytes(slices[n])) == slices[n] by { MessageRoundTrip(slices[n]); }
    }
  }

  lemma {:induction false} ConcatAppend(a: seq<seq<i16>>, b: seq<seq<i16>>)
    ensures Concat(a + b) == Concat(a) + Concat(b)
  {
    if |b| == 0 {
      assert a + b == a;
    } else {
      assert (a + b)[..|a + b| - 1] == a + b[..|b| - 1];
      ConcatAppend(a, b[..|b| - 1]);
      var x, y, z := Concat(a), Concat(b[..|b| - 1]), b[|b| - 1];
      assert x + y + z == x + (y + z);
    }
  }

  /** The slices of a frame, laid end to end, are the frame. */
  lemma {:induction false} SlicesRejoin(frame: seq<i16>)
    ensures Concat(Slices(frame)) == frame
  {
    if |frame| == 0 {
    } else if |frame| <= SLICE {
      assert [frame][..0] == [];
    } else {
      SlicesRejoin(frame[SLICE..]);
      assert [frame[..SLICE]][..0] == [];
      ConcatAppend([frame[..SLICE]], Slices(frame[SLICE..]));
    }
  }

  function AllSlices(frames: seq<seq<i16>>): (r: seq<seq<i16>>) {
    if |frames| == 0 then [] else AllSlices(frames[..|frames| - 1]) + Slices(frames[|frames| - 1])
  }

  lemma {:induction false} AllSlicesRejoin(frames: seq<seq<i16>>)
    ensures Concat(AllSlices(frames)) == Concat(frames)
  {
    if |frames| > 0 {
      var n := |frames| - 1;
      AllSlicesRejoin(frames[..n]);
      SlicesRejoin(frames[n]);
      ConcatAppend(AllSlices(frames[..n]), Slices(frames[n]));
    }
  }

  /** There is one way to cut samples into full frames and a short rest. */
  lemma {:induction false} OneWayToCut(a: seq<seq<i16>>, x: seq<i16>, b: seq<seq<i16>>)
    requires (forall k :: 0 <= k < |a| ==> |a[k]| == FRAME) && (forall k :: 0 <= k < |b| ==> |b[k]| == FRAME)
    requires |x| < FRAME && Concat(a) + x == Concat(b)
    ensures a == b && x == []
  {
    ConcatLength(a);
    ConcatLength(b);
    assert |a| == |b| && |x| == 0;
    SameFrames(a, b);
  }

  lemma {:induction false} ConcatLength(a: seq<seq<i16>>)
    requires forall k :: 0 <= k < |a| ==> |a[k]| == FRAME
    ensures |Concat(a)| == FRAME * |a|
  {
    if |a| > 0 { ConcatLength(a[..|a| - 1]); }
  }

  lemma {:induction false} SameFrames(a: seq<seq<i16>>, b: seq<seq<i16>>)
    requires (forall k :: 0 <= k < |a| ==> |a[k]| == FRAME) && (forall k :: 0 <= k < |b| ==> |b[k]| == FRAME)
    requires |a| == |b| && Concat(a) == Concat(b)
    ensures a == b
  {
    if |a| > 0 {
      var n := |a| - 1;
      ConcatLength(a[..n]);
      ConcatLength(b[..n]);
      assert Concat(a)[FRAME * n..] == a[n] && Concat(b)[FRAME * n..] == b[n];
      assert Concat(a)[..FRAME * n] == Concat(a[..n]) && Concat(b)[..FRAME * n] == Concat(b[..n]);
      SameFrames(a[..n], b[..n]);
      assert a == a[..n] + [a[n]] && b == b[..n] + [b[n]];
    }
  }

  /** The two directions fit: frames sliced by one bridge are cut again, the very
      same frames, by another that receives the slices. */
  lemma SlicedFramesAreCutAgain(frames: seq<seq<i16>>)
    requires forall k :: 0 <= k < |frames| ==> |frames[k]| == FRAME
    ensures After(Messages(AllSlices(frames))).cut == frames && After(Messages(AllSlices(frames))).acc == []
  {
    var events := Messages(AllSlices(frames));
    BridgeIsGood(events);
    InputOfMessages(AllSlices(frames));
    AllSlicesRejoin(frames);
    OneWayToCut(After(events).cut, After(events).acc, frames);
  }

  // ----- the bridge object -----

  class PcmBridge {
    var acc: seq<i16>
    var queue: seq<seq<i16>>
    var open: bool
    ghost var cut: seq<seq<i16>>
    ghost var accepted: seq<seq<i16>>
    ghost var taken: seq<seq<i16>>

    ghost function View(): (s: Bridge)
      reads this
    {
      Bridge(acc, queue, open, cut, accepted, taken)
    }

    constructor ()
      ensures View() == INIT
    {
      acc, queue, open, cut, accepted, taken := [], [], true, [], [], [];
    }

    method Push(b: seq<byte>)
      requires |b| % 2 == 0
      modifies this`acc
      ensures acc == old(acc) + Samples(b)
    {
      var i := 0;
      while i < |b|
        invariant 0 <= i <= |b| && i % 2 == 0
        invariant acc + Samples(b[i..]) == old(acc) + Samples(b)
      {
        assert b[i..][2..] == b[i + 2..];
        acc := acc + [FromLe(b[i], b[i + 1])];
        i := i + 2;
      }
      assert b[i..] == [];
    }

    method DrainFrames()
      modifies this
      ensures View() == Drain(old(View()))
    {
      while |acc| >= FRAME
        invariant Drain(View()) == Drain(old(View()))
        decreases |acc|
      {
        ghost var before := View();
        var frame := acc[..FRAME];
        acc := acc[FRAME..];
        cut := cut + [frame];
        if !open {
          assert View() == CutOne(before) == Drain(before);
          return;
        }
        if |queue| < CAPACITY {
          queue := queue + [frame];
          accepted := accepted + [frame];
        }
        assert View() == CutOne(before);
      }
    }

    method OnBinary(b: seq<byte>)
      modifies this
      ensures View() == Next(old(View()), Binary(b))
    {
      hide Drain;
      if |b| % 2 != 0 {
        return;
      }
      Push(b);
      DrainFrames();
    }

    /** The media loop ends and its end of the queue with it. */
    method HangUp()
      modifies this
      ensures View() == Next(old(View()), Hangup)
    {
      open := false;
    }

    method TryTake() returns (frame: Option<seq<i16>>)
      requires open
      modifies this
      ensures View() == Next(old(View()), Take)
      ensures frame == if old(|queue|) > 0 then Some(old(queue)[0]) else None
    {
      if |queue| == 0 {
        return None;
      }
      frame := Some(queue[0]);
      taken := taken + [queue[0]];
      queue := queue[1..];
    }
  }
}
