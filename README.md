# Starburst-One scroller, modelled in Dafny

Starburst-One is the firmware of a single alphanumeric display message
scroller. An ATtiny461A drives one LTP-587G 16-segment digit. Each of the fifteen segment cathodes is wired
straight to one I/O pin; the two top bars share a pin. The firmware scrolls
a fixed message through the digit, one character at a time.

- A pin lights its segment when its data-direction bit is 1. It is dark when
  that bit is 0 (high impedance). The port latches hold 0.
- The output state is therefore the pair of direction registers
  (DDRA, DDRB).
- Only one segment is driven during each held slice. For each character the
  firmware looks up a 16-bit glyph mask. It then runs SPEED scan passes over the
  fifteen segments. In each slot it writes the segment's table entry if the
  glyph holds that segment's bit, and the blank state otherwise.
- After the passes it steps to the next character, wrapping to the first at
  the terminating NUL. It then blanks the display for a gap.

The project has three modules:

- `Segments` (segments.dfy) holds the segment enumeration and the descriptor
  table. It proves that every entry drives exactly one pin and that entries
  are pairwise disjoint. It also gives an inverse lookup from an output state
  back to the segment it lights.
- `Glyphs` (glyphs.dfy) holds the segment-bit constants and the 256-entry
  glyph table. It proves that every glyph fits in fifteen bits and exactly
  which bytes are blank.
- `Scroller` (scroller.dfy) holds the main loop. The pure functions
  `ScanPass`, `Dwell`, `CharacterCycle` and `Cycles` give the sequence of
  held output states. The class `Display` carries the two registers, the
  message pointer and a ghost trace of held outputs. Its methods follow the
  loops of `main` and are proved against those functions.

Each hold (a drive slice or the blank gap) is one event of the trace.
`Duration` gives the firmware's wait for an event.

`NUM_SEGS` is fifteen; the combined A/B bar counts as one segment.
`DescriptorsDisjoint` proves that no two entries share a bit.

## Model

| member | source | states |
|---|---|---|
| Segments.SegAt | main.c:53-70 | the segment at enumerator value `i` has value `i`; together with `SegAtOrdinalOf` the enum order is a bijection onto 0..14 |
| Segments.SegAtOrdinalOf | main.c:53-70 | looking up a segment's own enumerator value gives that segment back |
| Segments.DescriptorHasOnePin | main.c:72-88 | every table entry sets exactly one bit across DDRA and DDRB |
| Segments.DescriptorsDisjoint | main.c:72-88 | two different entries share no set bit in either register |
| Segments.DrivesExactly | main.c:72-88 | writing entry `i` lights segment `j` if and only if `j == i`; the blank state lights nothing |
| Segments.DescriptorsDistinct | main.c:72-88 | no entry is the blank state, and distinct ordinals have distinct entries |
| Segments.FindFrom | main.c:72-88 | a found ordinal at or after `from` has entry `d`; not found means no ordinal from there on has entry `d` |
| Segments.SegmentOf | main.c:72-88 | the inverse lookup gives an ordinal whose entry is `d`, or reports that no entry is `d` |
| Segments.SegmentOfDescriptor | main.c:72-88 | the inverse lookup undoes the table, and the blank state is no entry |
| Segments.Seg | main.c:53-70 | the fifteen addressable segments, in the declaration order of `enum seg` |
| Segments.OrdinalOf | main.c:53-70 | each segment's enumerator value, SegA 0 through SegU 14 |
| Segments.DescriptorOf | main.c:72-88 | each segment's (DDRA, DDRB) entry, with the values of the table initialiser |
| Segments.SegmentDescriptor | main.c:72-88 | the table read by ordinal, as the scan loop reads `segments+i` |
| Segments.NumSegs | main.c:69 | `NUM_SEGS`, the number of addressable segments (fifteen) and the bound of the scan loop |
| Segments.Descriptor | main.c:28-36 | `struct segment`: one output state, the bytes written to DDRA and DDRB |
| Segments.Off | main.c:186-188 | the blank state `DDRA = 0; DDRB = 0`, every pin high impedance |
| Segments.Drives | main.c:6-8 | segment `i` is lit under an output state exactly when a direction bit of its own table entry is 1 (its cathode pin is an output pulling low); with the latches at 0 this is the lighting rule every safety row relies on |
| Glyphs.Bit | main.c:91-107 | the mask bit of ordinal `i`; `BitIsShift` and `BitStep` relate it to `1 << i` and to the loop's shift |
| Glyphs.SA | main.c:92 | segbit `sa` |
| Glyphs.SC | main.c:93 | segbit `sc` |
| Glyphs.SD | main.c:94 | segbit `sd` |
| Glyphs.SE | main.c:95 | segbit `se` |
| Glyphs.SF | main.c:96 | segbit `sf` |
| Glyphs.SG | main.c:97 | segbit `sg` |
| Glyphs.SH | main.c:98 | segbit `sh` |
| Glyphs.SK | main.c:99 | segbit `sk` |
| Glyphs.SM | main.c:100 | segbit `sm` |
| Glyphs.SN | main.c:101 | segbit `sn` |
| Glyphs.SP | main.c:102 | segbit `sp` |
| Glyphs.SR | main.c:103 | segbit `sr` |
| Glyphs.SS | main.c:104 | segbit `ss` |
| Glyphs.ST | main.c:105 | segbit `st` |
| Glyphs.SU | main.c:106 | segbit `su` |
| Glyphs.Listed | main.c:110-177 | the bytes the glyph table initialises: ' ' through '_' and '{' through '~' |
| Glyphs.Pattern | main.c:109-178 | the glyph table, one entry per initialiser, 0 for every other byte |
| Glyphs.BitIsShift | main.c:91-107 | the mask bit of ordinal `i` is `1 << i`, as each segbit constant is defined |
| Glyphs.BitStep | main.c:198-208 | shifting the mask of ordinal `i` left once gives the mask of ordinal `i + 1` |
| Glyphs.BitIsOneHot | main.c:91-107 | a glyph masked with one segment bit is either that bit or zero |
| Glyphs.SegBitConstants | main.c:91-107 | each segbit constant sa..su is the bit at its segment's enumerator value |
| Glyphs.PatternInRange | main.c:109-178 | every glyph is below `1 << NUM_SEGS` |
| Glyphs.PatternBlankIff | main.c:109-178 | a glyph is 0 if and only if its byte is not listed in the table or is the space |
| Glyphs.UnlistedBlank | main.c:109-178 | unlisted bytes and ' ' have glyph 0 |
| Glyphs.ListedNonBlank | main.c:109-178 | every listed byte other than ' ' lights at least one segment |
| Scroller.Speed | main.c:182 | SPEED, the scan passes per character |
| Scroller.SliceMicros | main.c:209 | the 100 microsecond hold of each slot |
| Scroller.BlankMillis | main.c:217 | the 30 millisecond blank after each character |
| Scroller.SliceOutput | main.c:201-207 | what slot `i` writes: the segment's entry if bit `i` is in the glyph, the blank state otherwise |
| Scroller.Event | main.c:209-217 | one hold of the outputs: a drive slice (held for `_delay_us(100)`) or the blank gap (held for `_delay_ms(30)`) |
| Scroller.OutputOf | main.c:203-217 | the register pair held during an event: the slice's written entry, or the blank state for the gap |
| Scroller.Duration | main.c:209-217 | every hold lasts a positive time, and the blank gap lasts longer than a drive slice |
| Scroller.SingleOrBlankLightsAtMostOne | main.c:201-207 | an output that is blank or one table entry never lights two segments |
| Scroller.NeverTwoLitAt | main.c:199-217 | in a safe trace, each held output lights at most one segment |
| Scroller.NeverTwoLitConcat | main.c:195-218 | joining two safe traces gives a safe trace |
| Scroller.SafeWhenSingleOrBlank | main.c:201-207 | a trace that only holds blank or single-entry outputs is safe |
| Scroller.SliceOutputSingleOrBlank | main.c:200-207 | what a slot writes is the blank state or one table entry |
| Scroller.ScanPass | main.c:199-210 | a scan pass has one slice per segment ordinal |
| Scroller.ScanPassSnoc | main.c:199-210 | the first `i + 1` slices of a pass are the first `i` followed by slot `i` |
| Scroller.SliceLights | main.c:201-207 | slot `i` lights segment `j` if and only if `j == i` and bit `i` is in the glyph |
| Scroller.ScanPassLightsPattern | main.c:196-210 | a segment is lit at some point of a scan pass if and only if its bit is in the glyph |
| Scroller.SliceLitBit | main.c:200-207 | the segment slot `i` lights, read back as a mask bit, is bit `i` of the glyph |
| Scroller.LitMaskPrefix | main.c:199-210 | the first `k` slices of a pass light exactly the glyph's bits below `k` |
| Scroller.ScanPassDecodes | main.c:196-210 | the segments lit over a pass, read back as a mask, are the glyph's fifteen segment bits |
| Scroller.LowBitsAll | main.c:91-107 | the bits of all fifteen ordinals together are the low fifteen bits of the word |
| Scroller.GlyphRoundTrip | main.c:109-210 | for every byte, the mask read back from its scan pass is its glyph |
| Scroller.Dwell | main.c:197-211 | `n` scan passes of one glyph, one after the other |
| Scroller.DwellShape | main.c:197-211 | slice `t` of a dwell is slot `t mod 15` of the scan pass |
| Scroller.DwellLength | main.c:197-211 | `n` scan passes hold `n` times fifteen slices |
| Scroller.CharacterCycle | main.c:196-217 | one character: SPEED scan passes of its glyph, then the blank gap |
| Scroller.CharacterCycleLength | main.c:196-217 | one character produces SPEED times fifteen slices and one gap |
| Scroller.CharacterCycleShape | main.c:196-217 | one character is SPEED full scan passes followed by a single blank gap |
| Scroller.UnlistedShowsBlank | main.c:109-217 | a byte missing from the table shows exactly as ' ' does, with every output blank |
| Scroller.HelloWorld | main.c:180 | `message`, the built-in text "HELLO WORLD " |
| Scroller.HelloWorldValid | main.c:180 | the built-in message is non-empty and NUL-free, and stepping past its last character wraps to the first |
| Scroller.Terminated | main.c:180-213 | the message as it lies in memory, followed by its terminating NUL |
| Scroller.NextIndex | main.c:212-213 | the message pointer stays inside the message |
| Scroller.NextIndexWraps | main.c:212-213 | the step goes to `i + 1`, or wraps to 0 exactly after the last character |
| Scroller.IndexAfter | main.c:193-213 | after any number of characters the pointer is inside the message |
| Scroller.IndexAfterCycles | main.c:193-213 | after `n` characters from `i` the pointer is at `(i + n) mod |m|` |
| Scroller.GlyphsOf | main.c:196 | one glyph is looked up per message byte |
| Scroller.Cycles | main.c:195-218 | the events of `n` iterations of the main loop from pointer `i` |
| Scroller.CyclesBlock | main.c:195-218 | block `r` of a run is the cycle of the character reached after `r` steps |
| Scroller.CyclesFollowMessage | main.c:193-218 | block `r` of a run from `i` shows character `(i + r) mod |m|` |
| Scroller.CyclesLength | main.c:195-218 | `n` characters produce `n` cycles of SPEED times fifteen slices plus one gap |
| Scroller.CharactersSeparatedByGap | main.c:212-218 | every character's block ends with a blank gap, so consecutive characters (even equal ones) are separated |
| Scroller.ScanPassSafe | main.c:199-210 | no slice of a scan pass lights two segments |
| Scroller.DwellSafe | main.c:197-211 | no slice of a dwell lights two segments |
| Scroller.CharacterCycleSafe | main.c:196-217 | no output held while showing one character lights two segments |
| Scroller.CharacterKeepsSafe | main.c:196-217 | appending one character's cycle to a safe trace keeps it safe |
| Scroller.CyclesSafe | main.c:195-218 | no output held during any number of characters lights two segments |
| Scroller.Display.Output | main.c:186-217 | the current DDRA/DDRB pair as an output state |
| Scroller.Display.constructor | main.c:186-193 | power-up: both direction registers 0 (all pins high impedance), pointer at the first character, empty trace |
| Scroller.Display.DriveSlice | main.c:200-209 | one slot writes the entry of segment `i` when the glyph holds its bit and the blank state otherwise, and appends that hold to the trace |
| Scroller.Display.Scan | main.c:198-210 | the inner loop, with its shifting segment mask, appends exactly one scan pass of the glyph to the trace |
| Scroller.Display.HoldGlyph | main.c:197-211 | the count loop appends SPEED scan passes to the trace |
| Scroller.Display.ShowCharacter | main.c:196-217 | one iteration of the main loop appends the character's cycle, moves the pointer by `NextIndex`, leaves the display blank, and keeps a safe trace safe |
| Scroller.Display.Run | main.c:195-218 | `n` iterations append the cycles of `n` characters, leave the pointer at `IndexAfter`, and keep a safe trace safe |

## Left out

- Time: `_delay_us(100)` and `_delay_ms(30)` are not modelled as time. They are the constants `SliceMicros` and `BlankMillis`, and `Duration` gives each event's hold.
- Program-memory access: `PROGMEM`, `pgm_read_word` and the `val` member of the `segment` union are modelled as plain table lookups (`SegmentDescriptor`, `Pattern`).
- The pull-up setup (`PORTA = 0`, `PORTB = 0`) is not modelled. The model assumes the latches hold 0, so only the direction registers decide what is lit.
- The main loop `while (1)` never ends. `Display.Run(n)` models its first `n` iterations.
- The model treats the two register writes of a slot (DDRA, then DDRB) as one atomic step. The firmware writes them one after the other, so between them DDRA is new and DDRB is old; for a glyph holding both U and A (such as '2') that intermediate state drives both. The trace records only the state held after both writes, and `NeverTwoLit` is a property of held states only.
- Electrical and visual behaviour (current, brightness, persistence of vision) is outside the model.
- Signed `char` indexing: `patterns+(*c)` with a byte of 0x80 or above indexes before the table when `char` is signed. The model takes message bytes as unsigned codes 0..255 (`Code`).
- The message is a parameter of `Display`. The firmware's own message is the constant `HelloWorld`.
- Pointer arithmetic on `c` is modelled as an index into the message. `Terminated` gives the bytes in memory, including the final NUL.
- The bit above the fifteen segment bits is never tested by the scan. `ScanPassDecodes` therefore reads back `p & 0x7FFF`. For the table's own glyphs this is the whole glyph (`GlyphRoundTrip`).
