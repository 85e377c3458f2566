/** The mouse quadrature decoder that runs forever on the second core. Each
    loop iteration polls the input pins and, per axis, counts rising edges
    of the primary line and latches the quadrature line as the direction. */
module Quadrature {
  import opened Words

  /** The four mouse lines, at pins 10 to 13 of the 32-bit input vector. */
  datatype Line = PinMouseV | PinMouseVQ | PinMouseHQ | PinMouseH

  /** Successive readings of the low 32 input pins. Reading the pins never
      fails, so the stream is infinite; `input(n)` is the n-th reading and
      the short settle delay before a re-sample is just the next reading. */
  type Samples = nat -> bv32

  /** One axis: the remembered level of its primary line, the latched
      direction and the count of rising edges (a wrapping `u32`). */
  datatype Axis = Axis(level: bv32, dir: bv32, count: U32)

  datatype Decoder = Decoder(h: Axis, v: Axis)

  /** Bit `pin` of a pin vector, as 0 or 1. */
  function PinBit(pins: bv32, pin: Line): (b: bv32)
    ensures b == 0 || b == 1
    ensures pin == PinMouseV ==> (b == 1 <==> pins & 0x400 != 0)
    ensures pin == PinMouseVQ ==> (b == 1 <==> pins & 0x800 != 0)
    ensures pin == PinMouseHQ ==> (b == 1 <==> pins & 0x1000 != 0)
    ensures pin == PinMouseH ==> (b == 1 <==> pins & 0x2000 != 0)
  {
    match pin
    case PinMouseV => (pins >> 10) & 1
    case PinMouseVQ => (pins >> 11) & 1
    case PinMouseHQ => (pins >> 12) & 1
    case PinMouseH => (pins >> 13) & 1
  }

  /** Levels and directions are single bits. */
  predicate ValidAxis(a: Axis) {
    a.level <= 1 && a.dir <= 1
  }

  predicate Valid(d: Decoder) {
    ValidAxis(d.h) && ValidAxis(d.v)
  }

  /** A rising edge: the remembered level is low and the sampled line is high. */
  predicate Rising(level: bv32, pins: bv32, pin: Line)
  {
    level == 0 && PinBit(pins, pin) == 1
  }

  /** The state the loop starts from: levels taken from the first reading,
      directions and counts zero. */
  function Start(first: bv32): (d: Decoder)
    ensures Valid(d)
    ensures d.h.level == PinBit(first, PinMouseH) && d.v.level == PinBit(first, PinMouseV)
    ensures d.h.count == 0 && d.v.count == 0 && d.h.dir == 0 && d.v.dir == 0
  {
    Decoder(Axis(PinBit(first, PinMouseH), 0, 0), Axis(PinBit(first, PinMouseV), 0, 0))
  }

  /** Result of polling one axis: the new axis, the most recent reading and
      the position of the next unread sample. */
  datatype Poll = Poll(axis: Axis, pins: bv32, next: nat)

  /** One axis's share of a loop iteration. `pins` is the most recent
      reading; on a change of level the level is updated, and on a rising
      change the pins are read again, the quadrature line is latched as
      the direction and the count goes up by one. */
  function AxisStep(a: Axis, pins: bv32, input: Samples, next: nat, pin: Line, qpin: Line): (r: Poll)
    requires ValidAxis(a)
    ensures ValidAxis(r.axis)
    ensures r.axis.level == PinBit(pins, pin)
    ensures Rising(a.level, pins, pin) ==>
              r.axis.count == Inc32(a.count) && r.axis.dir == PinBit(input(next), qpin)
              && r.pins == input(next) && r.next == next + 1
    ensures !Rising(a.level, pins, pin) ==>
              r.axis.count == a.count && r.axis.dir == a.dir && r.pins == pins && r.next == next
  {
    var b := PinBit(pins, pin);
    if a.level != b then
      if b != 0 then
        var resample := input(next);
        Poll(Axis(b, PinBit(resample, qpin), Inc32(a.count)), resample, next + 1)
      else
        Poll(a.(level := b), pins, next)
    else
      Poll(a, pins, next)
  }

  /** One iteration of the core-1 loop, reading from sample `pos` on: the H
      axis compares a fresh reading, the V axis compares the most recent
      reading, which is the H re-sample when H rose. Returns the new state
      and the position of the first sample left unread: an iteration reads
      one to three samples. */
  function Step(d: Decoder, input: Samples, pos: nat): (r: (Decoder, nat))
    requires Valid(d)
    ensures Valid(r.0)
    ensures pos + 1 <= r.1 <= pos + 3
  {
    var ph := AxisStep(d.h, input(pos), input, pos + 1, PinMouseH, PinMouseHQ);
    var pv := AxisStep(d.v, ph.pins, input, ph.next, PinMouseV, PinMouseVQ);
    (Decoder(ph.axis, pv.axis), pv.next)
  }

  /** What one iteration does: each count goes up by one exactly on a rising
      edge of its line, each level ends equal to the bit it was compared
      with, and a rising edge latches the quadrature bit of the re-sample
      read right after it as the direction. H compares the fresh reading;
      V compares the H re-sample when H rose, and the fresh reading
      otherwise. */
  lemma StepSpec(d: Decoder, input: Samples, pos: nat)
    requires Valid(d)
    ensures var r := Step(d, input, pos);
            var hUp := Rising(d.h.level, input(pos), PinMouseH);
            var vPins := if hUp then input(pos + 1) else input(pos);
            var vUp := Rising(d.v.level, vPins, PinMouseV);
            && r.1 == pos + 1 + (if hUp then 1 else 0) + (if vUp then 1 else 0)
            && r.0.h.level == PinBit(input(pos), PinMouseH)
            && r.0.v.level == PinBit(vPins, PinMouseV)
            && r.0.h.count == (if hUp then Inc32(d.h.count) else d.h.count)
            && r.0.v.count == (if vUp then Inc32(d.v.count) else d.v.count)
            && r.0.h.dir == (if hUp then PinBit(input(pos + 1), PinMouseHQ) else d.h.dir)
            && r.0.v.dir == (if vUp then PinBit(input(r.1 - 1), PinMouseVQ) else d.v.dir)
  {
  }

  /** The states after 0, 1, ..., n iterations, each with the position of
      the next sample to read. */
  function Run(d: Decoder, input: Samples, pos: nat, n: nat): (t: seq<(Decoder, nat)>)
    requires Valid(d)
    ensures |t| == n + 1 && t[0] == (d, pos)
    ensures forall k :: 0 <= k < |t| ==> Valid(t[k].0)
    decreases n
  {
    if n == 0 then [(d, pos)]
    else
      var t := Run(d, input, pos, n - 1);
      t + [Step(t[n - 1].0, input, t[n - 1].1)]
  }

  /** Number of 0-to-1 changes between neighbouring levels. */
  function Rises(levels: seq<bv32>): nat
    decreases |levels|
  {
    if |levels| < 2 then 0
    else
      Rises(levels[..|levels| - 1])
      + (if levels[|levels| - 2] == 0 && levels[|levels| - 1] == 1 then 1 else 0)
  }

  /** The two axes, as a selector. */
  datatype Direction = Horizontal | Vertical

  function AxisOf(d: Decoder, w: Direction): Axis {
    match w
    case Horizontal => d.h
    case Vertical => d.v
  }

  /** The levels one axis remembers along a trace of states. */
  function Levels(t: seq<(Decoder, nat)>, w: Direction): seq<bv32> {
    seq(|t|, k requires 0 <= k < |t| => AxisOf(t[k].0, w).level)
  }

  /** A wrapping counter that has gone up by `n` and then steps once more
      (or not) has gone up by the new total. */
  lemma WrapStep(a: U32, n: nat, c: U32, up: bool)
    requires c == Wrap32(a + n)
    ensures (if up then Inc32(c) else c) == Wrap32(a + n + (if up then 1 else 0))
  {
  }

  /** Whether the axis's count moves from `a` to `b` exactly on a rising level. */
  predicate CountsEdge(a: Axis, b: Axis) {
    b.count == if a.level == 0 && b.level == 1 then Inc32(a.count) else a.count
  }

  /** In one iteration a counter goes up exactly when its remembered level
      goes from 0 to 1. */
  lemma StepCountsEdge(d: Decoder, input: Samples, pos: nat)
    requires Valid(d)
    ensures CountsEdge(d.h, Step(d, input, pos).0.h)
    ensures CountsEdge(d.v, Step(d, input, pos).0.v)
  {
  }

  /** Each counter of one axis in a trace steps exactly on its level's
      0-to-1 changes. */
  ghost predicate CountsFollowLevels(t: seq<(Decoder, nat)>, w: Direction) {
    forall k :: 0 <= k < |t| - 1 ==> CountsEdge(AxisOf(t[k].0, w), AxisOf(t[k + 1].0, w))
  }

  /** Dropping the last state of a trace drops its last level change. */
  lemma LevelsDropLast(t: seq<(Decoder, nat)>, w: Direction)
    requires |t| >= 2
    ensures Rises(Levels(t, w))
            == Rises(Levels(t[..|t| - 1], w))
               + (if AxisOf(t[|t| - 2].0, w).level == 0 && AxisOf(t[|t| - 1].0, w).level == 1 then 1 else 0)
  {
    assert Levels(t, w)[..|t| - 1] == Levels(t[..|t| - 1], w);
  }

  /** In a trace whose counter steps on rising levels, the final count is
      the first count plus the number of rising edges, modulo 2^32. */
  lemma {:induction false} CountsOfTrace(t: seq<(Decoder, nat)>, w: Direction)
    requires |t| > 0 && CountsFollowLevels(t, w)
    ensures AxisOf(t[|t| - 1].0, w).count == Wrap32(AxisOf(t[0].0, w).count + Rises(Levels(t, w)))
    decreases |t|
  {
    if |t| > 1 {
      var t' := t[..|t| - 1];
      assert CountsFollowLevels(t', w) by {
        forall k | 0 <= k < |t'| - 1
          ensures CountsEdge(AxisOf(t'[k].0, w), AxisOf(t'[k + 1].0, w))
        {
          assert t'[k] == t[k] && t'[k + 1] == t[k + 1];
        }
      }
      CountsOfTrace(t', w);
      LevelsDropLast(t, w);
      var prev, last := AxisOf(t[|t| - 2].0, w), AxisOf(t[|t| - 1].0, w);
      assert t'[|t'| - 1] == t[|t| - 2] && t'[0] == t[0];
      assert CountsEdge(prev, last);
      WrapStep(AxisOf(t[0].0, w).count, Rises(Levels(t', w)), prev.count, prev.level == 0 && last.level == 1);
    }
  }

  /** Every run of the decoder is such a trace, for both axes. */
  lemma {:induction false} RunFollowsLevels(d: Decoder, input: Samples, pos: nat, n: nat)
    requires Valid(d)
    ensures CountsFollowLevels(Run(d, input, pos, n), Horizontal)
    ensures CountsFollowLevels(Run(d, input, pos, n), Vertical)
    decreases n
  {
    if n > 0 {
      var t' := Run(d, input, pos, n - 1);
      RunFollowsLevels(d, input, pos, n - 1);
      var prev := t'[n - 1];
      StepCountsEdge(prev.0, input, prev.1);
      assert Run(d, input, pos, n) == t' + [Step(prev.0, input, prev.1)];
    }
  }

  /** Over any number of iterations each counter goes up, modulo 2^32, by
      exactly the number of rising edges in the sequence of levels its
      axis remembers. */
  lemma CountsRisingEdges(d: Decoder, input: Samples, pos: nat, n: nat)
    requires Valid(d)
    ensures var t := Run(d, input, pos, n);
            && t[n].0.h.count == Wrap32(d.h.count + Rises(Levels(t, Horizontal)))
            && t[n].0.v.count == Wrap32(d.v.count + Rises(Levels(t, Vertical)))
  {
    RunFollowsLevels(d, input, pos, n);
    CountsOfTrace(Run(d, input, pos, n), Horizontal);
    CountsOfTrace(Run(d, input, pos, n), Vertical);
  }

  /** Entry k + 1 of a run is one more iteration from entry k. */
  lemma {:induction false} RunEntry(d: Decoder, input: Samples, pos: nat, n: nat, k: nat)
    requires Valid(d) && k < n
    ensures var t := Run(d, input, pos, n);
            t[k + 1] == Step(t[k].0, input, t[k].1)
    decreases n
  {
    if k < n - 1 {
      RunEntry(d, input, pos, n - 1, k);
      var t' := Run(d, input, pos, n - 1);
      assert Run(d, input, pos, n) == t' + [Step(t'[n - 1].0, input, t'[n - 1].1)];
    }
  }

  /** The levels a run remembers are the sampled pins: after iteration k
      the H level is pin 13 of the reading that iteration started with, and
      the V level is pin 10 of the most recent reading, which is the H
      re-sample when H rose. */
  lemma RunLevels(d: Decoder, input: Samples, pos: nat, n: nat, k: nat)
    requires Valid(d) && k < n
    ensures var t := Run(d, input, pos, n);
            var hUp := Rising(t[k].0.h.level, input(t[k].1), PinMouseH);
            && Levels(t, Horizontal)[k + 1] == PinBit(input(t[k].1), PinMouseH)
            && Levels(t, Vertical)[k + 1]
               == PinBit(if hUp then input(t[k].1 + 1) else input(t[k].1), PinMouseV)
  {
    var t := Run(d, input, pos, n);
    RunEntry(d, input, pos, n, k);
    StepSpec(t[k].0, input, t[k].1);
  }

  /** The loop as core 1 runs it: the first reading sets the levels, the
      loop reads from the second reading on, and after any number of
      iterations each count is the number of rising edges its loop saw,
      modulo 2^32. */
  lemma Core1Counts(input: Samples, n: nat)
    ensures var t := Run(Start(input(0)), input, 1, n);
            && t[0].0.h.level == PinBit(input(0), PinMouseH)
            && t[0].0.v.level == PinBit(input(0), PinMouseV)
            && t[n].0.h.count == Wrap32(Rises(Levels(t, Horizontal)))
            && t[n].0.v.count == Wrap32(Rises(Levels(t, Vertical)))
  {
    var d := Start(input(0));
    var t := Run(d, input, 1, n);
    assert t[0].0 == d;
    CountsRisingEdges(d, input, 1, n);
    assert d.h.count == 0 && d.v.count == 0;
  }
}
