/**
 * The message scroller: the firmware's main loop.
 *
 * For the current message character it looks the glyph up, repeats a full
 * scan of the fifteen segments Speed times (each segment slot writes the
 * segment's descriptor when its bit is in the glyph, the blank state
 * otherwise, and holds for one slice), steps to the next character, wrapping
 * at the terminating NUL, and blanks the display for a gap.
 *
 * The busy-wait delays are not modelled as time: each hold is an event of a
 * ghost trace, and Duration gives the length the firmware waits for it.
 */
module Scroller {
  import opened Segments
  import opened Glyphs

  /** Full scan passes per character (SPEED). */
  const Speed: nat := 200

  /** How long each segment slot is held, in microseconds. */
  const SliceMicros: nat := 100

  /** How long the display stays blank after each character, in milliseconds. */
  const BlankMillis: nat := 30

  /** Events of one character: Speed scans of NumSegs slices, then one gap. */
  const CycleLength: nat := Speed * NumSegs + 1

  /** One hold of the outputs: a drive slice of a scan, or the blank gap after a character. */
  datatype Event = Slice(out: Descriptor) | Gap

  /** The output state held during an event. */
  function OutputOf(e: Event): Descriptor
  {
    match e
    case Slice(out) => out
    case Gap => Off
  }

  /** How long an event is held, in microseconds. */
  function Duration(e: Event): (t: nat)
    ensures e.Gap? ==> t > SliceMicros
    ensures t > 0
  {
    match e
    case Slice(_) => SliceMicros
    case Gap => BlankMillis * 1000
  }

  /** An output state the driver writes: the blank state or one table entry. */
  predicate SingleOrBlank(out: Descriptor)
  {
    out == Off || SegmentOf(out).Some?
  }

  /** Such a state never lights two segments at once. */
  lemma SingleOrBlankLightsAtMostOne(out: Descriptor, a: Ordinal, b: Ordinal)
    requires SingleOrBlank(out)
    requires Drives(out, a) && Drives(out, b)
    ensures a == b
  {
    if out == Off {
      DrivesExactly(a, a);
    } else {
      var i := SegmentOf(out).value;
      DrivesExactly(i, a);
      DrivesExactly(i, b);
    }
  }

  /** An output state that lights at most one segment. */
  ghost predicate AtMostOneLit(out: Descriptor)
  {
    forall a: Ordinal, b: Ordinal :: Drives(out, a) && Drives(out, b) ==> a == b
  }

  /** No output state held along a trace lights two segments at once. */
  ghost predicate NeverTwoLit(trace: seq<Event>)
  {
    trace == [] || (NeverTwoLit(trace[..|trace| - 1]) && AtMostOneLit(OutputOf(trace[|trace| - 1])))
  }

  /** Read out: each event of a safe trace lights at most one segment. */
  lemma {:induction false} NeverTwoLitAt(trace: seq<Event>, k: nat)
    requires NeverTwoLit(trace) && k < |trace|
    ensures AtMostOneLit(OutputOf(trace[k]))
  {
    if k < |trace| - 1 {
      assert trace[..|trace| - 1][k] == trace[k];
      NeverTwoLitAt(trace[..|trace| - 1], k);
    }
  }

  /** Joining two safe traces gives a safe trace. */
  lemma {:induction false} NeverTwoLitConcat(s: seq<Event>, t: seq<Event>)
    requires NeverTwoLit(s) && NeverTwoLit(t)
    ensures NeverTwoLit(s + t)
    decreases |t|
  {
    if t == [] {
      assert s + t == s;
    } else {
      var front := t[..|t| - 1];
      assert (s + t)[..|s + t| - 1] == s + front;
      assert (s + t)[|s + t| - 1] == t[|t| - 1];
      NeverTwoLitConcat(s, front);
    }
  }

  /** A trace that only ever holds the blank state or single table entries is safe. */
  lemma {:induction false} SafeWhenSingleOrBlank(t: seq<Event>)
    requires forall k :: 0 <= k < |t| ==> SingleOrBlank(OutputOf(t[k]))
    ensures NeverTwoLit(t)
  {
    if t != [] {
      var last := OutputOf(t[|t| - 1]);
      forall a: Ordinal, b: Ordinal | Drives(last, a) && Drives(last, b)
        ensures a == b
      {
        SingleOrBlankLightsAtMostOne(last, a, b);
      }
      SafeWhenSingleOrBlank(t[..|t| - 1]);
    }
  }

  // ---------------------------------------------------------------------------
  // One scan pass

  /** What segment slot `i` writes for glyph mask `p`. */
  function SliceOutput(p: Mask, i: Ordinal): Descriptor
  {
    if (p & Bit(i)) != 0 then SegmentDescriptor(i) else Off
  }

  /** What a slot writes is the blank state or one table entry. */
  lemma SliceOutputSingleOrBlank(p: Mask, i: Ordinal)
    ensures SingleOrBlank(SliceOutput(p, i))
  {
    SegmentOfDescriptor(i);
  }

  /** The slices of one scan pass, ordinal 0 first. */
  function ScanPass(p: Mask): (pass: seq<Event>)
    ensures |pass| == NumSegs
  {
    seq(NumSegs, i requires 0 <= i < NumSegs => Slice(SliceOutput(p, i)))
  }

  /** The first `i + 1` slices of a pass are the first `i` and then slot `i`. */
  lemma ScanPassSnoc(p: Mask, i: Ordinal)
    ensures ScanPass(p)[..i + 1] == ScanPass(p)[..i] + [Slice(SliceOutput(p, i))]
  {
  }

  /** Slot `i` lights segment `j` exactly when `j` is `i` and bit `i` is in the glyph. */
  lemma SliceLights(p: Mask, i: Ordinal, j: Ordinal)
    ensures Drives(SliceOutput(p, i), j) <==> i == j && (p & Bit(i)) != 0
  {
    DrivesExactly(i, j);
  }

  /** The segments lit over a scan pass are exactly the bits of the glyph. */
  lemma ScanPassLightsPattern(p: Mask, j: Ordinal)
    ensures (exists k :: 0 <= k < NumSegs && Drives(OutputOf(ScanPass(p)[k]), j))
            <==> (p & Bit(j)) != 0
  {
    SliceLights(p, j, j);
    if (p & Bit(j)) != 0 {
      assert Drives(OutputOf(ScanPass(p)[j]), j);
    }
    forall k | 0 <= k < NumSegs && Drives(OutputOf(ScanPass(p)[k]), j)
      ensures (p & Bit(j)) != 0
    {
      SliceLights(p, k, j);
    }
  }

  /** The segment an event lights, as a mask bit (0 when it lights none). */
  function LitBit(e: Event): Mask
  {
    match SegmentOf(OutputOf(e))
    case Some(i) => Bit(i)
    case None => 0
  }

  /** The mask of all segments a run of events lights, read back from the outputs. */
  function LitMask(events: seq<Event>): Mask
  {
    if events == [] then 0
    else LitMask(events[..|events| - 1]) | LitBit(events[|events| - 1])
  }

  /** The bits of the ordinals below `k`. */
  function LowBits(k: nat): Mask
    requires k <= NumSegs
  {
    if k == 0 then 0 else LowBits(k - 1) | Bit(k - 1)
  }

  /** The first `k` slices of a pass read back as the low `k` bits of the glyph. */
  lemma {:induction false} LitMaskPrefix(p: Mask, k: nat)
    requires k <= NumSegs
    ensures LitMask(ScanPass(p)[..k]) == p & LowBits(k)
  {
    if k == 0 {
      assert ScanPass(p)[..0] == [];
    } else {
      LitMaskPrefix(p, k - 1);
      LitMaskStep(p, k);
    }
  }

  lemma LitMaskStep(p: Mask, k: nat)
    requires 0 < k <= NumSegs
    requires LitMask(ScanPass(p)[..k - 1]) == p & LowBits(k - 1)
    ensures LitMask(ScanPass(p)[..k]) == p & LowBits(k)
  {
    LitMaskSnoc(ScanPass(p), k);
    SliceLitBit(p, k - 1);
    OrOfMasked(p, LowBits(k - 1), Bit(k - 1));
  }

  lemma LitMaskSnoc(events: seq<Event>, k: nat)
    requires 0 < k <= |events|
    ensures LitMask(events[..k]) == LitMask(events[..k - 1]) | LitBit(events[k - 1])
  {
    assert events[..k][..k - 1] == events[..k - 1];
  }

  /** Slot `i` reads back as bit `i` of the glyph. */
  lemma SliceLitBit(p: Mask, i: Ordinal)
    ensures LitBit(ScanPass(p)[i]) == p & Bit(i)
  {
    SegmentOfDescriptor(i);
    BitIsOneHot(p, i);
  }

  lemma OrOfMasked(p: Mask, a: Mask, b: Mask)
    ensures (p & a) | (p & b) == p & (a | b)
  {
  }

  /** A scan pass reads back as the glyph, restricted to the fifteen segment bits. */
  lemma ScanPassDecodes(p: Mask)
    ensures LitMask(ScanPass(p)) == p & 0x7FFF
  {
    LitMaskPrefix(p, NumSegs);
    LowBitsAll();
    assert ScanPass(p)[..NumSegs] == ScanPass(p);
  }

  /** The bits of all fifteen ordinals are the low fifteen bits of the word. */
  lemma LowBitsAll()
    ensures LowBits(NumSegs) == 0x7FFF
  {
    assert LowBits(1) == 0x0001;
    assert LowBits(2) == 0x0003;
    assert LowBits(3) == 0x0007;
    assert LowBits(4) == 0x000F;
    assert LowBits(5) == 0x001F;
    assert LowBits(6) == 0x003F;
    assert LowBits(7) == 0x007F;
    assert LowBits(8) == 0x00FF;
    assert LowBits(9) == 0x01FF;
    assert LowBits(10) == 0x03FF;
    assert LowBits(11) == 0x07FF;
    assert LowBits(12) == 0x0FFF;
    assert LowBits(13) == 0x1FFF;
    assert LowBits(14) == 0x3FFF;
  }

  /** The scan of any character decodes back to its glyph. */
  lemma GlyphRoundTrip(c: Code)
    ensures LitMask(ScanPass(Pattern(c))) == Pattern(c)
  {
    ScanPassDecodes(Pattern(c));
    PatternInRange(c);
  }

  // ---------------------------------------------------------------------------
  // One character

  /** `n` scan passes of glyph `p`, one after the other. */
  function Dwell(p: Mask, n: nat): seq<Event>
  {
    if n == 0 then [] else Dwell(p, n - 1) + ScanPass(p)
  }

  /** Slice `t` of a dwell is slot `t mod NumSegs` of the scan pass. */
  lemma {:induction false} DwellShape(p: Mask, n: nat)
    ensures forall t :: 0 <= t < |Dwell(p, n)| ==> Dwell(p, n)[t] == ScanPass(p)[t % NumSegs]
  {
    DwellLength(p, n);
    if n > 0 {
      DwellShape(p, n - 1);
      DwellLength(p, n - 1);
      var prev := Dwell(p, n - 1);
      forall t | 0 <= t < |Dwell(p, n)|
        ensures Dwell(p, n)[t] == ScanPass(p)[t % NumSegs]
      {
        if t >= |prev| {
          assert t % NumSegs == t - (n - 1) * NumSegs;
        }
      }
    }
  }

  /** Everything one character of the message produces. */
  function CharacterCycle(p: Mask): seq<Event>
  {
    Dwell(p, Speed) + [Gap]
  }

  lemma CharacterCycleLength(p: Mask)
    ensures |CharacterCycle(p)| == CycleLength
  {
    DwellLength(p, Speed);
  }

  lemma {:induction false} DwellLength(p: Mask, n: nat)
    ensures |Dwell(p, n)| == n * NumSegs
  {
    if n > 0 {
      DwellLength(p, n - 1);
    }
  }

  /**
   * One character is Speed * NumSegs drive slices, the scan pass repeated,
   * followed by a gap that holds the blank state longer than any slice.
   */
  lemma CharacterCycleShape(p: Mask)
    ensures |CharacterCycle(p)| == Speed * NumSegs + 1 == CycleLength
    ensures forall t :: 0 <= t < Speed * NumSegs ==>
              CharacterCycle(p)[t] == ScanPass(p)[t % NumSegs]
    ensures CharacterCycle(p)[Speed * NumSegs] == Gap
  {
    DwellLength(p, Speed);
    DwellShape(p, Speed);
  }

  /** A byte the table does not list shows as Speed blank scans, the same as ' '. */
  lemma UnlistedShowsBlank(c: Code)
    requires !Listed(c)
    ensures CharacterCycle(Pattern(c)) == CharacterCycle(Pattern(' '))
    ensures forall e :: e in CharacterCycle(Pattern(c)) ==> OutputOf(e) == Off
  {
    PatternBlankIff(c);
    PatternBlankIff(' ');
    var cycle := CharacterCycle(0);
    CharacterCycleShape(0);
    forall e | e in cycle
      ensures OutputOf(e) == Off
    {
      var t :| 0 <= t < |cycle| && cycle[t] == e;
    }
  }

  // ---------------------------------------------------------------------------
  // Walking the message

  /** A message the scroller can show: non-empty, with no NUL inside. */
  predicate ValidMessage(m: seq<Code>)
  {
    |m| > 0 && forall k :: 0 <= k < |m| ==> m[k] != '\0'
  }

  /** The message the firmware is built with. */
  const HelloWorld: seq<Code> := "HELLO WORLD "

  lemma HelloWorldValid()
    ensures ValidMessage(HelloWorld)
    ensures NextIndex(HelloWorld, |HelloWorld| - 1) == 0
  {
  }

  /** The message as it lies in memory: its bytes and the terminating NUL. */
  function Terminated(m: seq<Code>): seq<Code>
  {
    m + ['\0']
  }

  /** Step past character `i`, back to the start when the next byte is the NUL. */
  function NextIndex(m: seq<Code>, i: nat): (j: nat)
    requires i < |m|
    ensures j < |m|
  {
    if Terminated(m)[i + 1] == '\0' then 0 else i + 1
  }

  /** In a valid message the step wraps exactly past the last character. */
  lemma NextIndexWraps(m: seq<Code>, i: nat)
    requires ValidMessage(m) && i < |m|
    ensures NextIndex(m, i) == (i + 1) % |m|
    ensures NextIndex(m, i) == 0 <==> i == |m| - 1
  {
    if i + 1 < |m| {
      assert Terminated(m)[i + 1] == m[i + 1];
    }
  }

  /** The index after `n` characters from `i`. */
  function IndexAfter(m: seq<Code>, i: nat, n: nat): (j: nat)
    requires i < |m|
    ensures j < |m|
  {
    if n == 0 then i else NextIndex(m, IndexAfter(m, i, n - 1))
  }

  /** The scroller walks the message cyclically. */
  lemma {:induction false} IndexAfterCycles(m: seq<Code>, i: nat, n: nat)
    requires ValidMessage(m) && i < |m|
    ensures IndexAfter(m, i, n) == (i + n) % |m|
  {
    if n == 0 {
      ModUnique(i, |m|, 0, i);
    } else {
      var len, j := |m|, IndexAfter(m, i, n - 1);
      assert j == (i + n - 1) % len by {
        IndexAfterCycles(m, i, n - 1);
      }
      assert NextIndex(m, j) == (j + 1) % len by {
        NextIndexWraps(m, j);
      }
      ModSucc(i + n - 1, len);
    }
  }

  lemma MulMonotone(a: nat, b: nat, c: nat)
    requires a <= b
    ensures a * c <= b * c
  {
  }

  lemma MulSucc(a: nat, c: nat)
    ensures (a + 1) * c == a * c + c
  {
  }

  lemma MulAtLeast(x: int, k: int)
    requires x >= 1 && k > 0
    ensures x * k >= k
  {
  }

  lemma ModUnique(a: int, k: int, q: int, r: int)
    requires k > 0 && 0 <= r < k && a == q * k + r
    ensures a % k == r
  {
    var q', r' := a / k, a % k;
    assert a == q' * k + r';
    assert (q - q') * k == r' - r;
    if q > q' {
      MulAtLeast(q - q', k);
    } else if q < q' {
      MulAtLeast(q' - q, k);
    }
  }

  lemma ModSucc(a: nat, k: nat)
    requires k > 0
    ensures (a % k + 1) % k == (a + 1) % k
  {
    var q, r := a / k, a % k;
    assert a == q * k + r;
    if r + 1 < k {
      ModUnique(a + 1, k, q, r + 1);
      ModUnique(r + 1, k, 0, r + 1);
    } else {
      ModUnique(a + 1, k, q + 1, 0);
      ModUnique(r + 1, k, 1, 0);
    }
  }

  /** The glyph of each byte of a message, looked up in the table. */
  function GlyphsOf(m: seq<Code>): (g: seq<Mask>)
    ensures |g| == |m|
  {
    seq(|m|, k requires 0 <= k < |m| => Pattern(m[k]))
  }

  /** The events of `n` characters with glyphs `g` shown from index `i`. */
  function Cycles(m: seq<Code>, g: seq<Mask>, i: nat, n: nat): seq<Event>
    requires i < |m| && |g| == |m|
  {
    if n == 0 then []
    else Cycles(m, g, i, n - 1) + CharacterCycle(g[IndexAfter(m, i, n - 1)])
  }

  /** Block `r` of `n` characters from `i` is the cycle of the character reached after `r` steps. */
  lemma {:induction false} CyclesBlock(m: seq<Code>, g: seq<Mask>, i: nat, n: nat, r: nat)
    requires i < |m| && |g| == |m| && r < n
    ensures |Cycles(m, g, i, n)| == n * CycleLength
    ensures Cycles(m, g, i, n)[r * CycleLength..(r + 1) * CycleLength]
            == CharacterCycle(g[IndexAfter(m, i, r)])
  {
    var prev, last := Cycles(m, g, i, n - 1), CharacterCycle(g[IndexAfter(m, i, n - 1)]);
    assert Cycles(m, g, i, n) == prev + last;
    assert |prev| == (n - 1) * CycleLength by {
      CyclesLength(m, g, i, n - 1);
    }
    assert |last| == CycleLength by {
      CharacterCycleLength(g[IndexAfter(m, i, n - 1)]);
    }
    var lo, hi := r * CycleLength, (r + 1) * CycleLength;
    if r == n - 1 {
      assert (prev + last)[lo..hi] == last;
    } else {
      MulMonotone(r + 1, n - 1, CycleLength);
      assert (prev + last)[lo..hi] == prev[lo..hi];
      CyclesBlock(m, g, i, n - 1, r);
    }
  }

  /** The characters are shown in message order, cyclically: block `r` shows character (i + r) mod |m|. */
  lemma CyclesFollowMessage(m: seq<Code>, i: nat, n: nat, r: nat)
    requires ValidMessage(m) && i < |m| && r < n
    ensures |Cycles(m, GlyphsOf(m), i, n)| == n * CycleLength
    ensures Cycles(m, GlyphsOf(m), i, n)[r * CycleLength..(r + 1) * CycleLength]
            == CharacterCycle(Pattern(m[(i + r) % |m|]))
  {
    CyclesBlock(m, GlyphsOf(m), i, n, r);
    IndexAfterCycles(m, i, r);
  }

  lemma {:induction false} CyclesLength(m: seq<Code>, g: seq<Mask>, i: nat, n: nat)
    requires i < |m| && |g| == |m|
    ensures |Cycles(m, g, i, n)| == n * CycleLength
  {
    if n == 0 {
      assert Cycles(m, g, i, 0) == [];
    } else {
      var p := g[IndexAfter(m, i, n - 1)];
      assert Cycles(m, g, i, n) == Cycles(m, g, i, n - 1) + CharacterCycle(p);
      CyclesLength(m, g, i, n - 1);
      CharacterCycleLength(p);
    }
  }

  /**
   * Every character's block ends with a gap holding the blank state, so the
   * last slice of one character and the first slice of the next are always
   * separated by it, even when the two characters are the same.
   */
  lemma CharactersSeparatedByGap(m: seq<Code>, g: seq<Mask>, i: nat, n: nat, r: nat)
    requires i < |m| && |g| == |m| && r < n
    ensures |Cycles(m, g, i, n)| == n * CycleLength
    ensures Cycles(m, g, i, n)[(r + 1) * CycleLength - 1] == Gap
    ensures OutputOf(Cycles(m, g, i, n)[(r + 1) * CycleLength - 1]) == Off
  {
    var p := g[IndexAfter(m, i, r)];
    var all, lo, hi := Cycles(m, g, i, n), r * CycleLength, (r + 1) * CycleLength;
    CyclesLength(m, g, i, n);
    MulMonotone(r + 1, n, CycleLength);
    MulSucc(r, CycleLength);
    assert all[lo..hi] == CharacterCycle(p) by {
      CyclesBlock(m, g, i, n, r);
    }
    assert CharacterCycle(p)[CycleLength - 1] == Gap by {
      CharacterCycleLength(p);
    }
    assert all[hi - 1] == all[lo..hi][CycleLength - 1];
  }

  // ---------------------------------------------------------------------------
  // Never two segments at once

  /** No slice of a scan pass lights two segments. */
  lemma ScanPassSafe(p: Mask)
    ensures NeverTwoLit(ScanPass(p))
  {
    forall k | 0 <= k < NumSegs
      ensures SingleOrBlank(OutputOf(ScanPass(p)[k]))
    {
      SliceOutputSingleOrBlank(p, k);
    }
    SafeWhenSingleOrBlank(ScanPass(p));
  }

  lemma {:induction false} DwellSafe(p: Mask, n: nat)
    ensures NeverTwoLit(Dwell(p, n))
  {
    if n > 0 {
      DwellSafe(p, n - 1);
      ScanPassSafe(p);
      NeverTwoLitConcat(Dwell(p, n - 1), ScanPass(p));
    }
  }

  /** Neither the dwell of a character nor its blank gap lights two segments. */
  lemma CharacterCycleSafe(p: Mask)
    ensures NeverTwoLit(CharacterCycle(p))
  {
    DwellSafe(p, Speed);
    SafeWhenSingleOrBlank([Gap]);
    NeverTwoLitConcat(Dwell(p, Speed), [Gap]);
  }

  /** Showing one more character keeps a safe trace safe. */
  lemma CharacterKeepsSafe(trace: seq<Event>, p: Mask)
    ensures NeverTwoLit(trace) ==> NeverTwoLit(trace + CharacterCycle(p))
  {
    if NeverTwoLit(trace) {
      CharacterCycleSafe(p);
      NeverTwoLitConcat(trace, CharacterCycle(p));
    }
  }

  /** However long the scroller runs, it never lights two segments at once. */
  lemma {:induction false} CyclesSafe(m: seq<Code>, g: seq<Mask>, i: nat, n: nat)
    requires i < |m| && |g| == |m|
    ensures NeverTwoLit(Cycles(m, g, i, n))
  {
    if n > 0 {
      var prev, cycle := Cycles(m, g, i, n - 1), CharacterCycle(g[IndexAfter(m, i, n - 1)]);
      assert Cycles(m, g, i, n) == prev + cycle;
      CyclesSafe(m, g, i, n - 1);
      CharacterCycleSafe(g[IndexAfter(m, i, n - 1)]);
      NeverTwoLitConcat(prev, cycle);
    }
  }

  // ---------------------------------------------------------------------------
  // The firmware state

  /** The two direction registers, the message pointer and the history of held outputs. */
  class Display {
    const message: seq<Code>
    var index: nat
    var ddra: bv8
    var ddrb: bv8
    ghost var trace: seq<Event>

    /** The output state the registers hold now. */
    function Output(): Descriptor
      reads this
    {
      Descriptor(ddra, ddrb)
    }

    ghost predicate Valid()
      reads this
    {
      && ValidMessage(message)
      && index < |message|
      && Output() == (if trace == [] then Off else OutputOf(trace[|trace| - 1]))
    }

    /** Power-up: every pin high-impedance, pointing at the first character. */
    constructor (message: seq<Code>)
      requires ValidMessage(message)
      ensures Valid()
      ensures this.message == message
      ensures index == 0 && Output() == Off && trace == []
    {
      this.message := message;
      index := 0;
      ddra, ddrb := 0, 0;
      trace := [];
    }

    /**
     * One drive slice of a scan pass: write segment `i`'s descriptor if the
     * glyph holds its bit (tested with the running mask) and the blank state
     * otherwise, and hold it.
     */
    method DriveSlice(pattern: Mask, i: Ordinal, segmask: Mask)
      requires Valid() && segmask == Bit(i)
      modifies this`ddra, this`ddrb, this`trace
      ensures Valid()
      ensures Output() == SliceOutput(pattern, i)
      ensures trace == old(trace) + [Slice(SliceOutput(pattern, i))]
    {
      var s := SegmentDescriptor(i);
      if (pattern & segmask) != 0 {
        ddra := s.ddra;
        ddrb := s.ddrb;
        assert Output() == SegmentDescriptor(i);
      } else {
        ddra := 0;
        ddrb := 0;
        assert Output() == Off;
      }
      trace := trace + [Slice(Output())];
    }

    /**
     * One scan pass of glyph `pattern`: drive each ordinal in turn for a
     * slice, shifting the segment mask from SA up by one bit per ordinal.
     */
    method Scan(pattern: Mask)
      requires Valid()
      modifies this`ddra, this`ddrb, this`trace
      ensures Valid()
      ensures trace == old(trace) + ScanPass(pattern)
    {
      ghost var before := trace;
      var segmask := SA;
      for i := 0 to NumSegs
        invariant Valid()
        invariant i < NumSegs ==> segmask == Bit(i)
        invariant trace == before + ScanPass(pattern)[..i]
      {
        DriveSlice(pattern, i, segmask);
        ScanPassSnoc(pattern, i);
        ghost var prev := segmask;
        segmask := segmask << 1;
        if i + 1 < NumSegs {
          BitStep(i, prev, segmask);
        }
      }
      assert ScanPass(pattern)[..NumSegs] == ScanPass(pattern);
    }

    /** Scan glyph `pattern` Speed times over: the dwell of one character. */
    method HoldGlyph(pattern: Mask)
      requires Valid()
      modifies this`ddra, this`ddrb, this`trace
      ensures Valid()
      ensures trace == old(trace) + Dwell(pattern, Speed)
    {
      ghost var before := trace;
      for count := 0 to Speed
        invariant Valid()
        invariant trace == before + Dwell(pattern, count)
      {
        Scan(pattern);
      }
    }

    /** Show the current character for its dwell, step to the next one and blank. */
    method ShowCharacter()
      requires Valid()
      modifies this
      ensures Valid()
      ensures trace == old(trace) + CharacterCycle(Pattern(message[old(index)]))
      ensures index == NextIndex(message, old(index))
      ensures Output() == Off
      ensures NeverTwoLit(old(trace)) ==> NeverTwoLit(trace)
    {
      ghost var before := trace;
      var pattern := Pattern(message[index]);
      HoldGlyph(pattern);
      var next := index + 1;
      if Terminated(message)[next] == '\0' {
        next := 0;
      }
      index := next;
      ddra, ddrb := 0, 0;
      trace := trace + [Gap];
      CharacterKeepsSafe(before, pattern);
    }

    /** The main loop, bounded to `n` characters. */
    method Run(n: nat)
      requires Valid()
      modifies this
      ensures Valid()
      ensures trace == old(trace) + Cycles(message, GlyphsOf(message), old(index), n)
      ensures index == IndexAfter(message, old(index), n)
      ensures NeverTwoLit(old(trace)) ==> NeverTwoLit(trace)
    {
      ghost var start, before := index, trace;
      for k := 0 to n
        invariant Valid()
        invariant trace == before + Cycles(message, GlyphsOf(message), start, k)
        invariant index == IndexAfter(message, start, k)
      {
        ShowCharacter();
      }
      if NeverTwoLit(before) {
        CyclesSafe(message, GlyphsOf(message), start, n);
        NeverTwoLitConcat(before, Cycles(message, GlyphsOf(message), start, n));
      }
    }
  }
}
