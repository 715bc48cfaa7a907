/**
 * The segment descriptor table of the Starburst-One scroller.
 *
 * The display is an LTP-587G common-anode 16-segment digit whose cathodes
 * are wired straight to the fifteen usable I/O pins of an ATtiny461A (the
 * two top bars share one pin).  A pin lights its segment when its data
 * direction bit is 1 (an output driven low, since the port latches hold 0)
 * and leaves it dark when the bit is 0 (a high-impedance input).  So the
 * whole output state is the pair of direction registers (DDRA, DDRB), and
 * each segment is lit by one such pair.
 */
module Segments {

  datatype Option<T> = None | Some(value: T)

  /** Number of separately addressable segments (NUM_SEGS). */
  const NumSegs: nat := 15

  /** A segment ordinal: the position of a segment in the scan order. */
  type Ordinal = i: nat | i < NumSegs

  /** The segments in declaration order; A also drives the tied-in B bar. */
  datatype Seg =
    | SegA | SegC | SegD | SegE | SegF | SegG | SegH | SegK
    | SegM | SegN | SegP | SegR | SegS | SegT | SegU

  /** The enumerator value of a segment: its position in the declaration. */
  function OrdinalOf(s: Seg): (i: Ordinal)
  {
    match s
    case SegA => 0
    case SegC => 1
    case SegD => 2
    case SegE => 3
    case SegF => 4
    case SegG => 5
    case SegH => 6
    case SegK => 7
    case SegM => 8
    case SegN => 9
    case SegP => 10
    case SegR => 11
    case SegS => 12
    case SegT => 13
    case SegU => 14
  }

  /** The segment whose enumerator value is `i` (the loop variable of type enum seg). */
  function SegAt(i: Ordinal): (s: Seg)
    ensures OrdinalOf(s) == i
  {
    [SegA, SegC, SegD, SegE, SegF, SegG, SegH, SegK,
     SegM, SegN, SegP, SegR, SegS, SegT, SegU][i]
  }

  lemma SegAtOrdinalOf(s: Seg)
    ensures SegAt(OrdinalOf(s)) == s
  {
  }

  /** One output state: the values of the two data direction registers. */
  datatype Descriptor = Descriptor(ddra: bv8, ddrb: bv8)

  /** Every pin a high-impedance input: nothing lit. */
  const Off := Descriptor(0, 0)

  /** The table entry of a segment, given by name as the table initialiser does. */
  function DescriptorOf(s: Seg): Descriptor
  {
    match s
    case SegA => Descriptor(0x01, 0x00)
    case SegM => Descriptor(0x02, 0x00)
    case SegK => Descriptor(0x04, 0x00)
    case SegH => Descriptor(0x08, 0x00)
    case SegG => Descriptor(0x10, 0x00)
    case SegT => Descriptor(0x20, 0x00)
    case SegE => Descriptor(0x40, 0x00)
    case SegF => Descriptor(0x80, 0x00)
    case SegN => Descriptor(0x00, 0x01)
    case SegC => Descriptor(0x00, 0x02)
    case SegP => Descriptor(0x00, 0x04)
    case SegU => Descriptor(0x00, 0x08)
    case SegD => Descriptor(0x00, 0x10)
    case SegR => Descriptor(0x00, 0x20)
    case SegS => Descriptor(0x00, 0x40)
  }

  /** The table read by ordinal, as the scan loop reads it. */
  function SegmentDescriptor(i: Ordinal): Descriptor
  {
    DescriptorOf(SegAt(i))
  }

  /** Number of set bits among the low `n` bits of `x`. */
  function CountBits(x: bv8, n: nat): (c: nat)
    requires n <= 8
    ensures c <= n
  {
    if n == 0 then 0
    else CountBits(x, n - 1) + (if x & (1 << (n - 1)) != 0 then 1 else 0)
  }

  /** Number of pins an output state configures as outputs. */
  function PinCount(d: Descriptor): nat
  {
    CountBits(d.ddra, 8) + CountBits(d.ddrb, 8)
  }

  /** Segment `i` is lit under `out`: its cathode pin is configured as an output. */
  predicate Drives(out: Descriptor, i: Ordinal)
  {
    var d := SegmentDescriptor(i);
    (out.ddra & d.ddra) != 0 || (out.ddrb & d.ddrb) != 0
  }

  /** Every table entry configures exactly one pin, across both registers. */
  lemma DescriptorHasOnePin(s: Seg)
    ensures PinCount(DescriptorOf(s)) == 1
  {
  }

  /** No two entries share a set bit in the same register. */
  lemma DescriptorsDisjoint(s: Seg, t: Seg)
    requires s != t
    ensures (DescriptorOf(s).ddra & DescriptorOf(t).ddra) == 0
    ensures (DescriptorOf(s).ddrb & DescriptorOf(t).ddrb) == 0
  {
  }

  /**
   * Writing entry `i` lights segment `i` and no other, and the blank state
   * lights nothing: each drive slice energises at most one segment.
   */
  lemma DrivesExactly(i: Ordinal, j: Ordinal)
    ensures Drives(SegmentDescriptor(i), j) <==> i == j
    ensures !Drives(Off, j)
  {
    if i != j {
      DescriptorsDisjoint(SegAt(i), SegAt(j));
    }
  }

  /** Distinct ordinals have distinct, non-blank entries. */
  lemma DescriptorsDistinct(i: Ordinal, j: Ordinal)
    ensures SegmentDescriptor(i) != Off
    ensures SegmentDescriptor(i) == SegmentDescriptor(j) ==> i == j
  {
    DrivesExactly(i, j);
    DrivesExactly(i, i);
  }

  /** An ordinal at or after `from` whose entry is `d`, if any. */
  function FindFrom(d: Descriptor, from: nat): (r: Option<Ordinal>)
    requires from <= NumSegs
    ensures r.Some? ==> from <= r.value && SegmentDescriptor(r.value) == d
    ensures r.None? ==> forall j: Ordinal :: from <= j ==> SegmentDescriptor(j) != d
    decreases NumSegs - from
  {
    if from == NumSegs then None
    else if SegmentDescriptor(from) == d then Some(from)
    else FindFrom(d, from + 1)
  }

  /** Which segment an output state lights on its own, if it is a table entry. */
  function SegmentOf(d: Descriptor): (r: Option<Ordinal>)
    ensures r.Some? ==> SegmentDescriptor(r.value) == d
    ensures r.None? ==> forall j: Ordinal :: SegmentDescriptor(j) != d
  {
    FindFrom(d, 0)
  }

  /** SegmentOf inverts the table, and the blank state is no entry. */
  lemma SegmentOfDescriptor(i: Ordinal)
    ensures SegmentOf(SegmentDescriptor(i)) == Some(i)
    ensures SegmentOf(Off) == None
  {
    var r := SegmentOf(SegmentDescriptor(i));
    DescriptorsDistinct(r.value, i);
    if SegmentOf(Off).Some? {
      DescriptorsDistinct(SegmentOf(Off).value, i);
    }
  }
}
