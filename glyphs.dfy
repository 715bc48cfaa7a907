/**
 * The glyph table: for each of the 256 byte values, the 16-bit mask of the
 * segments that draw it.  Bit `i` of a mask stands for the segment of
 * ordinal `i`; bytes the table does not list are blank.
 */
module Glyphs {
  import opened Segments

  /** A message byte (the table has one entry per byte value). */
  type Code = c: char | c as int < 256 witness ' '

  /** A segment mask, held in a 16-bit word. */
  type Mask = bv16

  /**
   * The mask bit of ordinal `i`: SA doubled once per ordinal.  It is the
   * single bit 1 << i (BitIsShift), and the value the scan loop's segment
   * mask holds at ordinal `i` (BitStep).
   */
  function Bit(i: Ordinal): Mask
  {
    if i == 0 then 1 else Bit(i - 1) + Bit(i - 1)
  }

  /** The shifted mask is the bit 1 << i, as each segbit constant is defined. */
  lemma {:induction false} BitIsShift(i: Ordinal)
    ensures Bit(i) == 1 << i
  {
    if i > 0 {
      BitIsShift(i - 1);
    }
  }

  /** Shifting the mask of ordinal `i` left once gives the mask of `i + 1`. */
  lemma BitStep(i: Ordinal, m: Mask, m': Mask)
    requires i + 1 < NumSegs && m == Bit(i) && m' == m << 1
    ensures m' == Bit(i + 1)
  {
    ShiftDoubles(m);
  }

  lemma ShiftDoubles(m: Mask)
    ensures m << 1 == m + m
  {
  }

  /** A glyph either holds the whole bit of an ordinal or none of it. */
  lemma BitIsOneHot(p: Mask, i: Ordinal)
    ensures (p & Bit(i)) != 0 ==> (p & Bit(i)) == Bit(i)
  {
    BitIsShift(i);
  }

  /** The segbit constants (enum segbit), one per segment. */
  const SA: Mask := 0x0001
  const SC: Mask := 0x0002
  const SD: Mask := 0x0004
  const SE: Mask := 0x0008
  const SF: Mask := 0x0010
  const SG: Mask := 0x0020
  const SH: Mask := 0x0040
  const SK: Mask := 0x0080
  const SM: Mask := 0x0100
  const SN: Mask := 0x0200
  const SP: Mask := 0x0400
  const SR: Mask := 0x0800
  const SS: Mask := 0x1000
  const ST: Mask := 0x2000
  const SU: Mask := 0x4000

  /** The bytes the table lists: ' ' through '_', and '{' through '~'. */
  predicate Listed(c: Code)
  {
    (' ' <= c <= '_') || ('{' <= c <= '~')
  }

  /** The glyph table (patterns[256]); an entry not listed is 0. */
  function Pattern(c: Code): Mask
  {
    match c
    case ' '  => 0
    case '!'  => SH | SM | SF | SE | SD
    case '"'  => SH | SM
    case '#'  => SC | SD | SE | SF | SM | SP | SS | SU
    case '$'  => SA | SD | SE | SF | SH | SM | SP | SS | SU
    case '%'  => SD | SH | SK | SN | SP | SR | ST | SU
    case '&'  => SA | SD | SE | SF | SG | SK | SN | SR | SU
    case '\'' => SM
    case '('  => SN | SR
    case ')'  => SK | SR
    case '*'  => SK | SM | SN | SP | SR | SS | ST | SU
    case '+'  => SM | SP | SS | SU
    case ','  => ST
    case '-'  => SP | SU
    case '.'  => SF
    case '/'  => SN | ST
    case '0'  => SA | SC | SD | SE | SF | SG | SH
    case '1'  => SC | SD
    case '2'  => SA | SC | SE | SF | SG | SP | SU
    case '3'  => SA | SC | SD | SE | SF | SP | SU
    case '4'  => SC | SD | SH | SP | SU
    case '5'  => SA | SD | SE | SF | SH | SP | SU
    case '6'  => SA | SD | SE | SF | SG | SH | SP | SU
    case '7'  => SA | SC | SD
    case '8'  => SA | SC | SD | SE | SF | SG | SH | SP | SU
    case '9'  => SA | SC | SD | SE | SF | SH | SP | SU
    case ':'  => SF | SU
    case ';'  => SF | SP
    case '<'  => SE | SF | SN | ST
    case '='  => SE | SF | SP | SU
    case '>'  => SE | SF | SK | SR
    case '?'  => SA | SC | SH | SP | SS
    case '@'  => SA | SC | SD | SE | SF | SG | SS | SU
    case 'A'  => SA | SC | SD | SG | SH | SP | SU
    case 'B'  => SA | SC | SD | SE | SF | SP | SM | SS
    case 'C'  => SA | SE | SF | SG | SH
    case 'D'  => SA | SC | SD | SE | SF | SM | SS
    case 'E'  => SA | SE | SF | SG | SH | SU
    case 'F'  => SA | SG | SH | SU
    case 'G'  => SA | SD | SE | SF | SG | SH | SP
    case 'H'  => SC | SD | SG | SH | SP | SU
    case 'I'  => SA | SE | SF | SM | SS
    case 'J'  => SC | SD | SE | SF | SG
    case 'K'  => SG | SH | SN | SR | SU
    case 'L'  => SE | SF | SG | SH
    case 'M'  => SC | SD | SG | SH | SK | SN
    case 'N'  => SC | SD | SG | SH | SK | SR
    case 'O'  => SA | SC | SD | SE | SF | SG | SH
    case 'P'  => SA | SC | SG | SH | SP | SU
    case 'Q'  => SA | SC | SD | SE | SF | SG | SH | SR
    case 'R'  => SA | SC | SG | SH | SR | SP | SU
    case 'S'  => SA | SD | SE | SF | SH | SP | SU
    case 'T'  => SA | SM | SS
    case 'U'  => SC | SD | SE | SF | SG | SH
    case 'V'  => SG | SH | SN | ST
    case 'W'  => SC | SD | SG | SH | SR | ST
    case 'X'  => SK | SN | SR | ST
    case 'Y'  => SC | SH | SP | SS | SU
    case 'Z'  => SA | SE | SF | SN | ST
    case '['  => SA | SF | SG | SH
    case '\\' => SK | SR
    case ']'  => SA | SC | SD | SE
    case '^'  => SR | ST
    case '_'  => SF | SE
    case '{'  => SE | SN | SS | SU
    case '|'  => SM | SS
    case '}'  => SF | SK | SP | SS
    case '~'  => SD | SE | SG | SS | SU
    case _    => 0
  }

  /** Every glyph uses only the bits of the fifteen segment ordinals. */
  lemma PatternInRange(c: Code)
    ensures Pattern(c) < 1 << NumSegs
  {
  }

  /**
   * A glyph is blank exactly when its byte is not listed or is the space:
   * every listed byte other than ' ' lights at least one segment.
   */
  lemma PatternBlankIff(c: Code)
    ensures Pattern(c) == 0 <==> !Listed(c) || c == ' '
  {
    if Listed(c) && c != ' ' {
      ListedNonBlank(c);
    } else {
      UnlistedBlank(c);
    }
  }

  lemma UnlistedBlank(c: Code)
    requires !Listed(c) || c == ' '
    ensures Pattern(c) == 0
  {
  }

  lemma ListedNonBlank(c: Code)
    requires Listed(c) && c != ' '
    ensures Pattern(c) != 0
  {
  }

  /** Each segbit constant is the bit at its segment's ordinal. */
  lemma SegBitConstants()
    ensures SA == Bit(OrdinalOf(SegA)) && SC == Bit(OrdinalOf(SegC))
    ensures SD == Bit(OrdinalOf(SegD)) && SE == Bit(OrdinalOf(SegE))
    ensures SF == Bit(OrdinalOf(SegF)) && SG == Bit(OrdinalOf(SegG))
    ensures SH == Bit(OrdinalOf(SegH)) && SK == Bit(OrdinalOf(SegK))
    ensures SM == Bit(OrdinalOf(SegM)) && SN == Bit(OrdinalOf(SegN))
    ensures SP == Bit(OrdinalOf(SegP)) && SR == Bit(OrdinalOf(SegR))
    ensures SS == Bit(OrdinalOf(SegS)) && ST == Bit(OrdinalOf(SegT))
    ensures SU == Bit(OrdinalOf(SegU))
  {
  }
}
