# H.264 Annex-B NAL unit parser, modelled in Dafny

The repository reads an H.264 byte stream in the Annex-B format (ITU-T H.264
Annex B, sections B.1-B.2). In that format, NAL units are separated by the
start-code prefix `00 00 01`, and longer runs of zeros are allowed before it.
The repository splits the stream into NAL units, classifies each unit from its
one-byte header (section 7.3.1 of H.264, codes from Table 7-1), and counts the
units of each type. All of this is in `src/nal_unit_parser.rs`, which has four
parts, each modelled in its own module:

- `NalTypes` (`nal_types.dfy`) covers the unit records and the header decoder:
  - `NalUnitType` and `NalUnit`, with `to_type`;
  - the split of the header into forbidden_zero_bit, nal_ref_idc and
    nal_unit_type;
  - the classification of types 1-5 as `Slice`, 7 as `Sps`, 8 as `Pps`, and
    any other code as `Other(code)`;
  - `NalUnitParser::parse`, which drops a unit whose forbidden_zero_bit is set.
- `BufferFramer` (`buffer_framer.dfy`) covers the free function `parse`.
  - `ParseSpec` defines its outcome from the positions of the start codes.
  - For each pair of consecutive start codes, the unit between them is
    emitted. Its payload stops before the whole zero run of the next start
    code.
  - A header with forbidden_zero_bit set blocks all later output.
  - A unit is empty when its header byte is itself part of the next start
    code's zero run, so it has no header of its own. An empty unit hits a
    reversed slice, which panics in the source. A unit whose header comes
    before that zero run is emitted, even with an empty payload.
  - The method `Parse` is the source's single loop, proved to compute
    `ParseSpec`.
- `StreamFramer` (`stream_framer.dfy`) covers `impl Write for NalUnitParser`.
  - `Step` and `Feed` describe the byte-at-a-time state machine over
    `zero_byte_count`, `byte_buf` and `nal_units`.
  - The class `NalUnitParser` holds those three fields. Its `Write` loop is
    proved to follow `Feed`.
  - The model shows what the machine actually does:
    - each unit is parsed from the first three bytes of the buffer, so every
      unit has a two-byte payload;
    - the counter is not reset after a start code, so a `0x01` right after
      one is taken for another start code, and `byte_buf[..3]` then panics.
- `Counting` (`nal_unit_count.dfy`) covers `NalUnitCount`.
  - It is a class with the count map.
  - `Update` changes the map in place.
  - `Format` is a read-only rendering. The `HashMap` iteration order is one
    of its parameters.

`Wrappers` (`wrappers.dfy`) holds the `Option` and `Result` types.

Bytes are `bv8`; counts and lengths are unbounded `nat`. The source has two
panics: the reversed slice in the free `parse` and `byte_buf[..3]` in `write`.
Both are modelled as `Err` outcomes that carry what the panic would report.

## Model

| member | source | states |
|---|---|---|
| NalTypes.ToType | src/nal_unit_parser.rs:47-54 | The counting key has the unit's variant, and an `Other` key keeps the unit's code. |
| NalTypes.ForbiddenZeroBit | src/nal_unit_parser.rs:69 | Bit 7 of the header: 0 or 1, and 1 exactly when the header is at least 0x80. |
| NalTypes.NalRefIdc | src/nal_unit_parser.rs:72 | Bits 6-5 of the header, at most 3. |
| NalTypes.NalUnitTypeCode | src/nal_unit_parser.rs:73 | Bits 4-0 of the header, at most 31; a header below 32 is its own code. |
| NalTypes.HeaderByte | src/nal_unit_parser.rs:69-73 | Builds a header from three fields; splitting it gives each field back. |
| NalTypes.HeaderSplitRoundTrip | src/nal_unit_parser.rs:69-73 | The three fields rebuild the header: the split loses nothing. |
| NalTypes.Classify | src/nal_unit_parser.rs:79-84 | Classification is total over 5-bit codes. 1-5 give `Slice`, 7 gives `Sps`, 8 gives `Pps`, and each only for those codes. Any other code gives `Other` with that code. `Other` never holds 1-5, 7 or 8. The payload is kept. |
| NalTypes.DecodeUnit | src/nal_unit_parser.rs:65-86 | No unit exactly when forbidden_zero_bit is set; otherwise the classification of the type code with the payload. |
| NalTypes.ParseUnit | src/nal_unit_parser.rs:64-87 | For a non-empty input, `None` exactly when the first byte has forbidden_zero_bit set. Otherwise the payload is every later byte, the key is well formed, and the unit is the header's type code (bits 4-0) classified over that payload. |
| NalTypes.ParseUnitRoundTrip | src/nal_unit_parser.rs:64-87 | Put a well-formed unit behind a header with forbidden_zero_bit clear and any nal_ref_idc. Parsing that gives the unit back. |
| NalTypes.ParseUnitRecoversHeader | src/nal_unit_parser.rs:64-87 | Each parsed unit, with the discarded nal_ref_idc, rebuilds its input bytes exactly. A `Slice` comes only from type codes 1-5. |
| BufferFramer.ZeroRunBefore | src/nal_unit_parser.rs:159-164 | The zero run ending before a position: all its bytes are 0x00, and the byte before it is not. |
| BufferFramer.StartCodes | src/nal_unit_parser.rs:158-165 | The start codes among the first `n` bytes, ascending. Each is a 0x01 byte after at least two zeros. |
| BufferFramer.StartCodesComplete | src/nal_unit_parser.rs:158-165 | A position is listed if and only if it is below `n` and is a start code: none is missed. |
| BufferFramer.StartCodeBytes | src/nal_unit_parser.rs:159-165 | A start code is exactly a 0x01 byte preceded by two 0x00 bytes. |
| BufferFramer.ValidCodesAt | src/nal_unit_parser.rs:158-165 | Every listed position is a start code inside the buffer, and the positions strictly ascend. |
| BufferFramer.SegEnd | src/nal_unit_parser.rs:183-188 | A unit's end is the start of the zero run before the next start code. It is at least the header position and at least two bytes before that code. |
| BufferFramer.SegUnit | src/nal_unit_parser.rs:182-189 | A unit's payload is the bytes after its header, up to the zero run before the next start code. |
| BufferFramer.AdvanceOutcome | src/nal_unit_parser.rs:167-192 | One start code's step. A blocked or failed walk is unchanged. An open walk stays open exactly when the header's top bit is clear and the slice is not reversed. It then keeps its units and gains one, whose payload is the slice. A set top bit keeps the units and blocks. A reversed slice fails with that slice. |
| BufferFramer.FramesBound | src/nal_unit_parser.rs:158-197 | With fewer than two start codes nothing is emitted. Otherwise at most one unit per start code after the first. |
| BufferFramer.ParseSpecBound | src/nal_unit_parser.rs:120-200 | `parse` returns at most one unit fewer than the buffer has start codes, and none with fewer than two. |
| BufferFramer.FramesEmitted | src/nal_unit_parser.rs:158-197 | The emitted units are, in order, the units between the first consecutive start codes. There are fewer of them than start codes, and none comes after the last start code. |
| BufferFramer.FramesOpen | src/nal_unit_parser.rs:158-197 | While nothing has blocked or failed, there is one unit per pair of consecutive start codes, and each was emitted. |
| BufferFramer.FramesBlocked | src/nal_unit_parser.rs:178-180 | A blocked outcome stopped at a header with forbidden_zero_bit set, right after its last emitted unit. |
| BufferFramer.FramesFailed | src/nal_unit_parser.rs:183-188 | A failed outcome stopped at the first unit not emitted. That unit has a valid header and is empty. |
| BufferFramer.FramesOpenIff | src/nal_unit_parser.rs:158-197 | Every unit is emitted if and only if each has a valid header that is not part of the next start code's zero run. The payload may be empty. |
| BufferFramer.FirstBad | src/nal_unit_parser.rs:167-192 | The first unit not emitted decides the outcome. A rejected header blocks, keeping the units before it. An empty unit fails, with its reversed slice. |
| BufferFramer.ParseEmitted | src/nal_unit_parser.rs:120-200 | Whatever `parse` returns is, in stream order, the units between consecutive start codes. |
| BufferFramer.ParseAllEmitted | src/nal_unit_parser.rs:167-197 | `parse` returns one unit fewer than there are start codes if and only if every unit has a valid header that is not part of the next start code's zero run. The payload may be empty. |
| BufferFramer.ParseBlocked | src/nal_unit_parser.rs:178-180 | A header with forbidden_zero_bit set drops its unit and every later one. It is re-examined at each later start code, and `parse` returns exactly the units before it. |
| BufferFramer.ParseFails | src/nal_unit_parser.rs:183-188 | A panic comes only from the first unit not emitted, which has a valid header and is empty. The panic names that unit's slice. |
| BufferFramer.EmptyUnitFails | src/nal_unit_parser.rs:183-188 | Conversely, such a unit makes `parse` panic with its slice. |
| BufferFramer.Parse | src/nal_unit_parser.rs:120-200 | The source's loop, with its zero-run counter and pending start, computes exactly `ParseSpec`: the emitted units, or the slice panic. |
| BufferFramer.ExampleStream | src/nal_unit_parser.rs:158-199 | `00 00 01 67 AA BB 00 00 01 68 CC 00 00 00 01 65 DD EE` gives `[Sps[AA,BB], Pps[CC]]`. The zero run of three is excluded, and the final slice is never emitted. |
| BufferFramer.ExampleEmptyUnit | src/nal_unit_parser.rs:183-188 | `00 00 01 00 00 01` panics on the reversed slice `4..3`. |
| BufferFramer.ExampleEmptyPayload | src/nal_unit_parser.rs:182-192 | `00 00 01 67 00 00 01` gives `[Sps([])]`. A header right before the next zero run is emitted with an empty payload. |
| BufferFramer.ExampleBlocked | src/nal_unit_parser.rs:178-180 | A first header of 0x80 blocks the SPS after it, so nothing is emitted. |
| StreamFramer.Step | src/nal_unit_parser.rs:92-110 | One byte, step by step. The byte is appended. 0x00 adds one to the counter. Another byte resets it, except a 0x01 with the counter at 2 or more. That 0x01 is a start code, and the counter is not reset. At a start code the buffer is cleared, and the unit list gains at most the unit parsed from the buffer's first three bytes. A buffer shorter than three bytes panics. |
| StreamFramer.Found | src/nal_unit_parser.rs:104-106 | At most one unit to append. There is none exactly when `parse` returned `None`, and otherwise it is the unit `parse` returned. |
| StreamFramer.Feed | src/nal_unit_parser.rs:92-110 | Bytes fed one at a time through `Step`. The unit list only grows from the starting state. A panic reports a buffer of one or two bytes. |
| StreamFramer.NalUnitParser.constructor | src/nal_unit_parser.rs:57-61 | A parser with no zeros counted, an empty buffer and no units. |
| StreamFramer.NalUnitParser.Write | src/nal_unit_parser.rs:91-113 | If `Feed` runs the buffer without panicking, it returns the buffer's length and the fields become `Feed`'s state. Otherwise it returns the panic, with the fields as they were at that point. |
| StreamFramer.NalUnitParser.Flush | src/nal_unit_parser.rs:115-117 | Always succeeds and changes nothing. |
| StreamFramer.FeedStops | src/nal_unit_parser.rs:102 | A panic ends the write: later bytes are never looked at. |
| StreamFramer.FeedConcat | src/nal_unit_parser.rs:91-113 | Writing `a + b` is writing `a`, then `b`. How the input is split into calls does not matter. |
| StreamFramer.Ones | src/nal_unit_parser.rs:101 | The number of 0x01 bytes, at most the length. |
| StreamFramer.FeedUnits | src/nal_unit_parser.rs:101-108 | The unit list never shrinks and keeps its old units. It gains at most one unit per 0x01 byte. |
| StreamFramer.FeedPayloads | src/nal_unit_parser.rs:102-105 | Every unit `write` emits has a payload of exactly two bytes, whatever the real unit's length. |
| StreamFramer.StepConsistent | src/nal_unit_parser.rs:93-109 | Each step keeps the counter consistent with the buffer: it is the trailing zero run, or it still carries a start code's count over an all-zero buffer. |
| StreamFramer.StartCodeDetection | src/nal_unit_parser.rs:95-102 | In a consistent state, `write` detects a start code without panicking exactly when the byte ends a real start code of the buffer. It panics exactly when it detects one that is not real. |
| StreamFramer.FeedConsistent | src/nal_unit_parser.rs:92-110 | Consistency holds after any write that does not panic. |
| StreamFramer.InitialConsistent | src/nal_unit_parser.rs:57-61 | A fresh parser is consistent. |
| StreamFramer.FirstStartCode | src/nal_unit_parser.rs:101-108 | Writing `00 00 01` to a fresh parser emits `Other(0, [00, 01])`, parsed from the start code itself. The buffer is cleared and the counter stays at 2. |
| StreamFramer.PanicAfterStartCode | src/nal_unit_parser.rs:97-102 | `00 00 01 01` panics in `byte_buf[..3]` with a one-byte buffer. |
| Counting.Bump | src/nal_unit_parser.rs:23-26 | The updated key's entry goes up by one, starting from 0 when absent. Every other entry is unchanged. No other key is added. |
| Counting.NalUnitCount.constructor | src/nal_unit_parser.rs:17-21 | A counter with no entries. |
| Counting.NalUnitCount.Update | src/nal_unit_parser.rs:23-26 | The map becomes `Bump` of the old map at the unit's key. |
| Counting.BumpTotal | src/nal_unit_parser.rs:23-26 | One update adds exactly one to the sum of all counts. |
| Counting.CountsTotal | src/nal_unit_parser.rs:17-26 | After n updates from a fresh counter, the counts sum to n. |
| Counting.CountsAreOccurrences | src/nal_unit_parser.rs:17-26 | After updates with a sequence of units, a key has an entry exactly when it occurs, and the entry holds its number of occurrences. |
| Counting.Tally | src/nal_unit_parser.rs:17-26 | Updating a fresh counter with each unit in turn gives those counts. |
| Counting.Decimal | src/nal_unit_parser.rs:32 | `{}` of a count: at least one decimal digit, with no leading zero. |
| Counting.DecimalRoundTrip | src/nal_unit_parser.rs:32 | Reading a rendered count back gives the count. |
| Counting.DecimalInjective | src/nal_unit_parser.rs:32 | Different counts render differently. |
| Counting.DebugName | src/nal_unit_parser.rs:4-10 | `{:?}` of a key: a variant name of at least three characters, with no colon in it. |
| Counting.DebugNameInjective | src/nal_unit_parser.rs:4-10 | Distinct keys have distinct debug names. |
| Counting.Entry | src/nal_unit_parser.rs:32 | `"{key:?}: {count}"`: the first colon ends the key's name, and every character after the following space is a digit. |
| Counting.EntryInjective | src/nal_unit_parser.rs:32 | An entry determines both its key and its count. |
| Counting.Join | src/nal_unit_parser.rs:34 | No parts give `""`, and one part gives itself. |
| Counting.JoinNonEmpty | src/nal_unit_parser.rs:34 | A non-empty last part makes a non-empty result. |
| Counting.Pairs | src/nal_unit_parser.rs:29-33 | In the given iteration order, one (key, count) pair per listed key, with its count. |
| Counting.Rendered | src/nal_unit_parser.rs:32 | Each pair rendered as `"{key:?}: {count}"`, in order. |
| Counting.FormatOrderFree | src/nal_unit_parser.rs:28-35 | Any two `HashMap` iteration orders list the same (key, count) pairs, up to order. |
| Counting.FormatOnePerKey | src/nal_unit_parser.rs:28-35 | Every key of the map is listed with its count exactly once. |
| Counting.JoinedEntriesEmpty | src/nal_unit_parser.rs:28-35 | The joined entries are `""` exactly when the map is empty. |
| Counting.NalUnitCount.Format | src/nal_unit_parser.rs:28-35 | Read-only. The entries in the given iteration order, joined by `", "`. The result is `""` exactly when there are no entries. |

## Left out

- `src/main.rs` (the websocket server, its channel and task) and
  `static/www/app.js` (the browser page) are not part of this model. They are
  I/O, concurrency and UI.
- Panics are modelled as `Err` results (`SliceError`, `Panic`), not as
  unwinding. When a panic is reported, `StreamFramer.NalUnitParser.Write` leaves
  the fields as they were at the failing byte. In the source that object would
  not be used again.
- `std::io::Write` and `io::Result` are reduced to `Result`. Apart from the
  panic, `write` always returns the length and `flush` always returns `()`.
- Counting.NalUnitCount.Update: counts are unbounded `nat`. The source's `i32`
  would overflow after 2^31 - 1 updates of one key.
- StreamFramer.Step: `zero_byte_count` is an unbounded `nat`, not a `usize`.
- Counting.NalUnitCount.Format: the `HashMap` iteration order is a parameter,
  any listing of the keys without repeats. `FormatOrderFree` shows that the
  pairs rendered do not depend on it. The byte-level string is stated only
  through `Rendered` and `Join`.
- `Counting.DebugName` renders the variant name, and the code for `Other`.
  Other details of Rust's `Debug` output are not modelled.
- The commented-out sketch at `src/nal_unit_parser.rs:125-156` is dead code
  and is not modelled.
- `NalUnitParser` declares no constructor. The model's constructor builds the
  empty state a user of the struct would have to write by hand.
- The model follows the code, which has no end-of-stream flush and no IDR or
  nal_ref_idc check:
  - the unit after the last start code is never emitted;
  - nal_ref_idc is computed and discarded;
  - types 1-5 all become `Slice`;
  - emulation-prevention bytes are not removed.
