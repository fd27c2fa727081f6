/** The rollover counters of SRTP: how a 16-bit sequence number is extended to
    the 48-bit packet index `2^16 * ROC + SEQ` of RFC 3711, on the sending side
    and, by guessing, on the receiving side. */
module Rollover {
  import opened Bytes

  const ROC_SPACE := 0x1_0000_0000
  const INDEX_SPACE := 0x1_0000_0000_0000

  /** The true rollover counter of packet index `i`. */
  function RocOf(i: nat): (r: u32) { i / 0x1_0000 % ROC_SPACE }
  function SeqOf(i: nat): (s: u16) { i % 0x1_0000 }

  // ----- sending side -----

  datatype SendRoc = SendRoc(roc: u32, lastSeq: u16, initialized: bool)

  const SEND_INIT := SendRoc(0, 0, false)

  /** The tracker after folding `sn`; its `roc` is what `sn` is sent under. */
  function Advance(t: SendRoc, sn: u16): (r: SendRoc) {
    if !t.initialized then SendRoc(t.roc, sn, true)
    else if sn - t.lastSeq < -0x8000 then SendRoc((t.roc + 1) % ROC_SPACE, sn, true)
    else SendRoc(t.roc, sn, true)
  }

  predicate SendAt(t: SendRoc, i: nat) {
    t.initialized && t.lastSeq == SeqOf(i) && t.roc == RocOf(i)
  }

  /** Stepping from index `i` to `i + d` keeps the tracker exact for exactly
      these gaps: up to 32767, or any gap that does not wrap the 16 bits. */
  lemma AdvanceExactIff(t: SendRoc, i: nat, d: nat)
    requires SendAt(t, i) && d < 0x1_0000
    ensures SendAt(Advance(t, SeqOf(i + d)), i + d) <==> d < 0x8000 || SeqOf(i) + d < 0x1_0000
  {
    var q, s := i / 0x1_0000, i % 0x1_0000;
    if s + d < 0x1_0000 {
      SplitIndex(i + d, q, s + d);
    } else {
      SplitIndex(i + d, q + 1, s + d - 0x1_0000);
      NextRoc(q);
    }
  }

  lemma SplitIndex(i: nat, q: nat, s: u16)
    requires i == q * 0x1_0000 + s
    ensures i / 0x1_0000 == q && SeqOf(i) == s && RocOf(i) == q % ROC_SPACE
  {}

  lemma NextRoc(q: nat)
    ensures (q + 1) % ROC_SPACE == (q % ROC_SPACE + 1) % ROC_SPACE != q % ROC_SPACE
  {}

  function AdvanceAll(t: SendRoc, indices: seq<nat>): (r: SendRoc) {
    if |indices| == 0 then t
    else Advance(AdvanceAll(t, indices[..|indices| - 1]), SeqOf(indices[|indices| - 1]))
  }

  ghost predicate SmallSteps(indices: seq<nat>) {
    forall k {:trigger indices[k]} :: 0 < k < |indices| ==> 0 <= indices[k] - indices[k - 1] < 0x8000
  }

  /** Whatever monotonic indices are sent, if they start below 2^16 and never
      skip 2^15 or more, every one of them is stamped with its true counter. */
  lemma {:induction false} AdvanceTracksRun(indices: seq<nat>)
    requires |indices| > 0 && indices[0] < 0x1_0000 && SmallSteps(indices)
    ensures SendAt(AdvanceAll(SEND_INIT, indices), indices[|indices| - 1])
  {
    var n := |indices| - 1;
    if n == 0 {
      assert AdvanceAll(SEND_INIT, indices[..0]) == SEND_INIT;
    } else {
      AdvanceTracksRun(indices[..n]);
      AdvanceExactIff(AdvanceAll(SEND_INIT, indices[..n]), indices[n - 1], indices[n] - indices[n - 1]);
    }
  }

  class RocTracker {
    var roc: u32
    var lastSeq: u16
    var initialized: bool

    function View(): (t: SendRoc)
      reads this
    {
      SendRoc(roc, lastSeq, initialized)
    }

    constructor ()
      ensures View() == SEND_INIT
    {
      roc, lastSeq, initialized := 0, 0, false;
    }

    method AdvanceTo(sn: u16) returns (r: u32)
      modifies this
      ensures View() == Advance(old(View()), sn) && r == roc
    {
      if !initialized {
        lastSeq := sn;
        initialized := true;
        return roc;
      }
      if sn - lastSeq < -32768 {
        roc := (roc + 1) % ROC_SPACE;
      }
      lastSeq := sn;
      return roc;
    }
  }

  // ----- receiving side -----

  datatype RecvRoc = RecvRoc(roc: u32, sl: u16, initialized: bool) {
    /** The 48-bit index the tracker stands at. */
    function Index(): (i: nat)
      ensures i < INDEX_SPACE
    {
      roc * 0x1_0000 + sl
    }
  }

  const RECV_INIT := RecvRoc(0, 0, false)

  function Estimate(t: RecvRoc, sn: u16): (v: u32) {
    if !t.initialized then t.roc
    else if t.sl < 0x8000 then
      if sn - t.sl > 0x8000 then (t.roc - 1) % ROC_SPACE else t.roc
    else if t.sl - sn > 0x8000 then (t.roc + 1) % ROC_SPACE
    else t.roc
  }

  function Commit(t: RecvRoc, v: u32, sn: u16): (r: RecvRoc) {
    if !t.initialized then RecvRoc(t.roc, sn, true)
    else if v == t.roc then (if sn > t.sl then t.(sl := sn) else t)
    else if v == (t.roc + 1) % ROC_SPACE then RecvRoc(v, sn, true)
    else t
  }

  /** Distance on the circle of 48-bit indices. */
  function CircDist(a: nat, b: nat): (d: nat)
    requires a < INDEX_SPACE && b < INDEX_SPACE
  {
    var d := (a - b) % INDEX_SPACE;
    if d <= INDEX_SPACE / 2 then d else INDEX_SPACE - d
  }

  /** How far index `i` lies ahead of the tracker, modulo 2^48. */
  function Ahead(t: RecvRoc, i: nat): (d: nat)
    ensures d < INDEX_SPACE
  {
    (i - t.Index()) % INDEX_SPACE
  }

  /** The indices whose counter an initialised tracker guesses right: strictly
      within 2^15 either way, and of the two ties the one on the tracker's side
      of the half-range. */
  predicate InWindow(t: RecvRoc, i: nat) {
    var d := Ahead(t, i);
    || d < 0x8000
    || d > INDEX_SPACE - 0x8000
    || (d == 0x8000 && t.sl < 0x8000)
    || (d == INDEX_SPACE - 0x8000 && t.sl >= 0x8000)
  }

  /** Index `i` written as a whole number of wraps ahead of the tracker. */
  lemma AheadByWraps(t: RecvRoc, i: nat) returns (e: nat)
    ensures e < ROC_SPACE && RocOf(i) == (t.roc + e) % ROC_SPACE
    ensures Ahead(t, i) == (e * 0x1_0000 + SeqOf(i) - t.sl) % INDEX_SPACE
  {
    var q, s := i / 0x1_0000, SeqOf(i);
    var k := (q - t.roc) / ROC_SPACE;
    e := (q - t.roc) % ROC_SPACE;
    assert q == t.roc + e + k * ROC_SPACE;
    ModShift(t.roc + e, k, ROC_SPACE);
    assert i == q * 0x1_0000 + s;
    assert i - t.Index() == e * 0x1_0000 + s - t.sl + k * INDEX_SPACE;
    ModShift(e * 0x1_0000 + s - t.sl, k, INDEX_SPACE);
  }

  lemma ModShift(x: int, k: int, m: int)
    requires m == ROC_SPACE || m == INDEX_SPACE
    ensures (x + k * m) % m == x % m
  {}

  /** The guess is the sender's counter exactly on the window. */
  lemma EstimateExactIff(t: RecvRoc, i: nat)
    requires t.initialized
    ensures Estimate(t, SeqOf(i)) == RocOf(i) <==> InWindow(t, i)
  {
    var e := AheadByWraps(t, i);
    var s := SeqOf(i) - t.sl;
    if e == 0 {
      assert Ahead(t, i) == if s >= 0 then s else INDEX_SPACE + s;
    } else if e == ROC_SPACE - 1 {
      assert Ahead(t, i) == INDEX_SPACE - 0x1_0000 + s;
      assert (t.roc + e) % ROC_SPACE == (t.roc - 1) % ROC_SPACE;
    } else {
      assert Ahead(t, i) == e * 0x1_0000 + s;
    }
  }

  /** The guessed counter puts the packet within 2^15, any other at least 2^15 away. */
  lemma GuessAt(t: RecvRoc, sn: u16, w: u32)
    requires t.initialized
    ensures Estimate(t, sn) == w ==> CircDist(w * 0x1_0000 + sn, t.Index()) <= 0x8000
    ensures Estimate(t, sn) != w ==> CircDist(w * 0x1_0000 + sn, t.Index()) >= 0x8000
  {
    var j := w * 0x1_0000 + sn;
    assert j / 0x1_0000 == w && RocOf(j) == w && SeqOf(j) == sn;
    EstimateExactIff(t, j);
  }

  /** Section 3.3.1 of RFC 3711: of all 2^32 counters, the guess puts the packet
      nearest to the tracked index, modulo 2^48, and it is a neighbour of ROC. */
  lemma EstimateMinimises(t: RecvRoc, sn: u16, w: u32)
    requires t.initialized
    ensures Estimate(t, sn) in {(t.roc - 1) % ROC_SPACE, t.roc, (t.roc + 1) % ROC_SPACE}
    ensures CircDist(Estimate(t, sn) * 0x1_0000 + sn, t.Index()) <= CircDist(w * 0x1_0000 + sn, t.Index())
  {
    GuessAt(t, sn, Estimate(t, sn));
    GuessAt(t, sn, w);
  }

  /** A committed guess in the window moves the tracked index to the larger of
      the two, as long as the 48-bit index space itself has not wrapped. */
  lemma CommitTakesMax(t: RecvRoc, i: nat)
    requires t.initialized && i < INDEX_SPACE
    requires Estimate(t, SeqOf(i)) == RocOf(i)
    ensures var r := Commit(t, RocOf(i), SeqOf(i));
            r.initialized &&
            (r.Index() == (if i > t.Index() then i else t.Index())
             <==> -INDEX_SPACE / 2 < i - t.Index() < INDEX_SPACE / 2)
  {
    assert i == RocOf(i) * 0x1_0000 + SeqOf(i);
  }

  class RecvRocTracker {
    var roc: u32
    var sl: u16
    var initialized: bool

    function View(): (t: RecvRoc)
      reads this
    {
      RecvRoc(roc, sl, initialized)
    }

    constructor ()
      ensures View() == RECV_INIT
    {
      roc, sl, initialized := 0, 0, false;
    }

    method CommitRoc(v: u32, sn: u16)
      modifies this
      ensures View() == Commit(old(View()), v, sn)
    {
      if !initialized {
        sl := sn;
        initialized := true;
        return;
      }
      if v == roc {
        if sn > sl {
          sl := sn;
        }
      } else if v == (roc + 1) % ROC_SPACE {
        roc := v;
        sl := sn;
      }
    }
  }
}
