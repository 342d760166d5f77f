# DMR rate 3/4 trellis codec, modelled in Dafny

This project models the rate 3/4 trellis codec of dmrshark (`libs/coding/trellis.c`). The codec
implements the trellis code and 4FSK dibit mapping of ETSI TS 102 361-1 (the DMR Air Interface
standard), annex B. The codec is a chain of five inverse pairs over fixed-size buffers:

| component | decode direction | encode direction |
|---|---|---|
| symbol mapper | 196 info bits to 98 dibits in {+3, +1, -1, -3} | 98 dibits to 196 info bits |
| interleaver | scatter by the 98-entry interleave matrix | gather by the same matrix |
| constellation mapper | dibit pairs to 49 points 0..15 | points to dibit pairs |
| trellis state machine | 49 points to 49 tribits, or failure | 48 tribits to 49 points, the last one a terminator |
| bit packer | first 48 tribits to 144 bits, MSB first | 144 bits to 48 tribits |

Each C function is a Dafny `method` with the same loop, proved against a sequence-level
specification function (`ensures out[..] == F(in[..])`). The properties the codec relies on are
lemmas about those functions: the round trips of every pair, the interleave matrix being a
permutation, per-row injectivity and parity of the transition table, decode-after-encode and
encode-after-decode of the trellis code, corruption detection, and a round trip of the whole burst.

Files, one module each:

- `coding_base.dfy` (`CodingBase`): the 8-bit cell types (`Byte` for bits, points and tribits;
  `SByte` for dibits), the frame lengths, `Option`, and the domain predicates.
- `trellis_tables.dfy` (`TrellisTables`): the two constant tables and the facts proved about
  them. Each table appears twice: as its source rows, written out as literals, and as the
  closed-form sequence the methods index. A lemma proves the two equal.
- `symbol_mapper.dfy`, `interleaver.dfy`, `constellation.dfy`, `trellis_machine.dfy`,
  `bit_packer.dfy`: the five components.
- `codec.dfy` (`TrellisCodec`): the chain put together for one burst.

Notes on the model:

- The decoder's scan keeps the last matching column. This is `LastMatchBelow`, whose contract
  states that the result is the last match. `NextStateSpec` proves that every row holds 8
  distinct values, so the match is unique. Scanning for the first match would therefore give the
  same result.
- A description of the decoder in which the first matching column wins does not match the
  code. The model follows the code, and `NextStateSpec` shows that the two coincide on this
  table.
- The transition table is modelled twice, but states one fact. The decoder and encoder methods
  index the flat 64-entry table as the source does (`row_start + j`). The specification uses
  `Transition(state, tribit)`, the entry of the state's row. `TransitionInTable` proves the two
  agree, and `TransitionTableIsSourceTable` proves that the flat table is the eight source rows
  laid end to end.
- The decoder's inner column scan (lines 288-297) is the method `ScanRow`, called once per
  point by `ExtractTribits`. It runs the same loop over the same columns. It returns the match
  flag and the new state, and the caller stores the tribit.
- Output buffers are new arrays returned by each method. No method has a `modifies` clause, so a
  call leaves every existing array unchanged.

## Model

| member | source | states |
|---|---|---|
| `TrellisTables.InterleaveMatrixIsSourceTable` | libs/coding/trellis.c:26-31 | the closed form (line r holds the dibit indices 8m + 2r and 8m + 2r + 1 in order; line 0 has 26 entries, lines 1 to 3 have 24) is exactly the source's four lines laid end to end |
| `TrellisTables.InterleaveLine0ClosedForm` | libs/coding/trellis.c:27 | entry j of the first source line is 8 * (j / 2) + j % 2 |
| `TrellisTables.InterleaveLinesClosedForm` | libs/coding/trellis.c:28-30 | entry j of source line r (r = 1, 2, 3) is 8 * (j / 2) + 2r + j % 2 |
| `TrellisTables.PositionOfIndex` | libs/coding/trellis.c:26-31 | `InterleavePosition` sends every matrix entry back to where it stands |
| `TrellisTables.IndexOfPosition` | libs/coding/trellis.c:26-31 | every dibit index stands in the matrix at its `InterleavePosition` |
| `TrellisTables.InterleaveMatrixInRange` | libs/coding/trellis.c:26-31 | the matrix has 98 entries, each a dibit index 0..97 |
| `TrellisTables.InterleaveMatrixInverse` | libs/coding/trellis.c:26-31 | `InterleavePosition` is the matrix's two-sided inverse |
| `TrellisTables.InterleaveMatrixIsPermutation` | libs/coding/trellis.c:26-31 | the 98 entries are pairwise distinct and every index 0..97 occurs, so the matrix is a permutation |
| `TrellisTables.TransitionTableIsSourceTable` | libs/coding/trellis.c:33-42 | the flat table the methods index is exactly the source's eight rows laid end to end |
| `TrellisTables.TransitionInTable` | libs/coding/trellis.c:33-42 | the flat table has 64 entries, and entry state*8 + tribit is the tribit-th entry of the state's row |
| `TrellisTables.TransitionParity` | libs/coding/trellis.c:33-42 | every entry is a point 0..15; rows 0, 1, 6, 7 hold even points and rows 2 to 5 odd ones |
| `TrellisTables.TransitionRowInjective` | libs/coding/trellis.c:33-42 | the 8 entries of each row are pairwise distinct |
| `SymbolMapper.DibitOfBits` | libs/coding/trellis.c:62-69 | the level of a bit pair is one of the four levels; the first bit is 1 exactly when the level is negative, the second exactly when the level is ±3 |
| `SymbolMapper.BitsOfDibit` | libs/coding/trellis.c:99-105 | the bit pair of a level is two bits; the same sign / magnitude characterisation in the other direction |
| `SymbolMapper.BitPairLevelRoundTrip` | libs/coding/trellis.c:60-70 | decoding the level of a bit pair gives the pair back |
| `SymbolMapper.LevelBitPairRoundTrip` | libs/coding/trellis.c:98-106 | mapping the bit pair of a level gives the level back |
| `SymbolMapper.DibitsFromBits` | libs/coding/trellis.c:60-70 | 196 bits in {0,1} give 98 valid dibit levels |
| `SymbolMapper.BitsFromDibits` | libs/coding/trellis.c:98-106 | 98 valid dibits give 196 bits in {0,1} |
| `SymbolMapper.BitsFromDibitsInverts` | libs/coding/trellis.c:60-106 | bits to dibits and back is the identity on 196 bits in {0,1} |
| `SymbolMapper.DibitsFromBitsInverts` | libs/coding/trellis.c:60-106 | dibits to bits and back is the identity on 98 valid dibits |
| `SymbolMapper.ExtractDibits` | libs/coding/trellis.c:44-80 | the loop stores dibit i from bits 2i and 2i+1, giving exactly `DibitsFromBits` of the input |
| `SymbolMapper.ConstructPayloadInfoBits` | libs/coding/trellis.c:82-116 | the loop stores bits 2i and 2i+1 from dibit i, giving exactly `BitsFromDibits` of the input |
| `Interleaver.Deinterleaved` | libs/coding/trellis.c:134-135 | a frame of 98 dibits |
| `Interleaver.DeinterleavedPlacesDibits` | libs/coding/trellis.c:134-135 | received dibit i lands at position InterleaveMatrix[i] of the deinterleaved frame |
| `Interleaver.Interleaved` | libs/coding/trellis.c:163-164 | 98 dibits, dibit i taken from position InterleaveMatrix[i] |
| `Interleaver.InterleaveAfterDeinterleave` | libs/coding/trellis.c:134-164 | interleaving a deinterleaved frame gives the frame back |
| `Interleaver.DeinterleaveAfterInterleave` | libs/coding/trellis.c:134-164 | deinterleaving an interleaved frame gives the frame back |
| `Interleaver.InterleavingKeepsLevels` | libs/coding/trellis.c:134-164 | both directions keep every dibit a valid level |
| `Interleaver.DeinterleaveDibits` | libs/coding/trellis.c:118-145 | the scatter loop produces exactly `Deinterleaved` of the input (no later write clobbers an earlier one) |
| `Interleaver.InterleaveDibits` | libs/coding/trellis.c:147-174 | the gather loop produces exactly `Interleaved` of the input |
| `ConstellationMapper.PointOfDibits` | libs/coding/trellis.c:193-208 | every pair of levels maps to a point 0..15 |
| `ConstellationMapper.DibitsOfPoint` | libs/coding/trellis.c:239-254 | every point 0..15 maps to a pair of valid levels |
| `ConstellationMapper.PairPointRoundTrip` | libs/coding/trellis.c:192-209 | the 16 cases cover each of the 16 pairs of levels, and the inverse table gives the pair back |
| `ConstellationMapper.PointPairRoundTrip` | libs/coding/trellis.c:237-257 | each point's pair maps back to that point, so the tables are inverse bijections |
| `ConstellationMapper.PointsFromDibits` | libs/coding/trellis.c:192-209 | 98 valid dibits give 49 points 0..15 |
| `ConstellationMapper.DibitsFromPoints` | libs/coding/trellis.c:237-257 | 49 points 0..15 give 98 valid dibits |
| `ConstellationMapper.DibitsFromPointsInverts` | libs/coding/trellis.c:192-257 | dibits to points and back is the identity on 98 valid dibits |
| `ConstellationMapper.PointsFromDibitsInverts` | libs/coding/trellis.c:192-257 | points to dibits and back is the identity on 49 points 0..15 |
| `ConstellationMapper.GetConstellationPoints` | libs/coding/trellis.c:176-219 | the loop stores point i from dibits 2i and 2i+1, giving exactly `PointsFromDibits` of the input |
| `ConstellationMapper.ConstructDeinterleavedDibits` | libs/coding/trellis.c:221-267 | the loop stores dibits 2i and 2i+1 from point i, giving exactly `DibitsFromPoints` of the input |
| `TrellisStateMachine.LastMatchBelow` | libs/coding/trellis.c:290-297 | the column scan's result is the last column below n whose entry equals the point; it is None exactly when no such column exists |
| `TrellisStateMachine.RowCoversParityClass` | libs/coding/trellis.c:33-42 | every point 0..15 of a row's parity appears in that row |
| `TrellisStateMachine.NextStateOfTransition` | libs/coding/trellis.c:290-297 | the point sent from a state for tribit c is matched, from that state, at column c |
| `TrellisStateMachine.NextStateSpec` | libs/coding/trellis.c:287-303 | a point matches in a state's row iff it is 0..15 with the row's parity, and then column c matches iff the table entry at c is the point |
| `TrellisStateMachine.DecodeRun` | libs/coding/trellis.c:273-304 | a successful run yields one tribit in 0..7 per point, and the state reached is the last tribit (0 before the first point) |
| `TrellisStateMachine.Decode` | libs/coding/trellis.c:269-314 | a successful decode yields one tribit in 0..7 per point |
| `TrellisStateMachine.EncodeRun` | libs/coding/trellis.c:319-337 | one point 0..15 per tribit; the state reached is the last tribit (0 for none) |
| `TrellisStateMachine.Terminated` | libs/coding/trellis.c:333-338 | one point per tribit plus the terminator, all 0..15 |
| `TrellisStateMachine.Encode` | libs/coding/trellis.c:316-348 | 48 payload tribits give 49 points 0..15 |
| `TrellisStateMachine.EncodeTribitBuffer` | libs/coding/trellis.c:333-338 | the encoder as written, over the 49-cell tribit buffer, stores 50 points |
| `TrellisStateMachine.TribitBufferEncodingOverruns` | libs/coding/trellis.c:333-338 | with a 0 in the last cell, the as-written encoder stores the 49 intended points and then a 50th |
| `TrellisStateMachine.DecodeRunOfEncodeRun` | libs/coding/trellis.c:287-337 | decoding the points of any tribit sequence gives back the tribits and the final state |
| `TrellisStateMachine.EncodeRunOfDecodeRun` | libs/coding/trellis.c:287-337 | a successful decode is undone by encoding the decoded tribits |
| `TrellisStateMachine.DecodeAfterEncode` | libs/coding/trellis.c:287-338 | decoding the 49 points of 48 tribits gives those tribits followed by 0 |
| `TrellisStateMachine.EncodeAfterDecode` | libs/coding/trellis.c:287-338 | a decodable 49-point frame is the encoding of its first 48 tribits iff its 49th tribit is 0 |
| `TrellisStateMachine.DecodeRunStep` | libs/coding/trellis.c:287-303 | one more point extends the decoded prefix by the column matching it in the current state's row, or fails the run when none matches |
| `TrellisStateMachine.EncodeRunStep` | libs/coding/trellis.c:333-337 | one more tribit extends the encoded prefix by the table entry for that tribit in the current state's row, and the tribit becomes the state |
| `TrellisStateMachine.DecodeFailurePersists` | libs/coding/trellis.c:299-303 | once a prefix fails to decode, the whole frame fails (no partial result) |
| `TrellisStateMachine.CorruptPointFailsFrame` | libs/coding/trellis.c:299-303 | a point above 15, or of the wrong parity for the state reached before it, fails the whole frame |
| `TrellisStateMachine.ZeroTribitsEncodeToZeroPoints` | libs/coding/trellis.c:319-338 | n zero tribits stay in state 0, are sent as n zero points, and the terminator is 0 too |
| `TrellisStateMachine.ScanRow` | libs/coding/trellis.c:288-297 | the scan of the current state's 8 columns matches exactly when `NextState` finds a column, and the new state is that column; with no match the state is unchanged |
| `TrellisStateMachine.ExtractTribits` | libs/coding/trellis.c:269-314 | the nested scan returns None exactly when `Decode` fails, and otherwise 49 tribits equal to `Decode` of the input |
| `TrellisStateMachine.ConstructConstellationPoints` | libs/coding/trellis.c:316-348 | the lookup loop and the terminator store exactly `Encode` of the 48 input tribits |
| `BitPacker.TribitBits` | libs/coding/trellis.c:367-369 | three bits in {0,1}; for a tribit 0..7 they are its binary digits, most significant first |
| `BitPacker.TribitOfBits` | libs/coding/trellis.c:399-401 | a value 0..7 whose binary digits are the three cells, each counted as set only when it equals 1 |
| `BitPacker.BinaryFromTribits` | libs/coding/trellis.c:366-370 | 144 bits in {0,1} from the first 48 tribits |
| `BitPacker.TribitsFromBinary` | libs/coding/trellis.c:398-402 | 48 tribits in 0..7 from any 144 cells |
| `BitPacker.TribitBitsRoundTrip` | libs/coding/trellis.c:366-402 | packing the three bits of a tribit gives the tribit back |
| `BitPacker.TribitsFromBinaryInverts` | libs/coding/trellis.c:366-402 | unpacking then packing gives back the first 48 tribits |
| `BitPacker.BinaryFromTribitsInverts` | libs/coding/trellis.c:366-402 | packing then unpacking is the identity on 144 bits in {0,1} |
| `BitPacker.ExtractBinary` | libs/coding/trellis.c:350-380 | the loop stores bits 3k..3k+2 from tribit k, giving exactly `BinaryFromTribits` of the input |
| `BitPacker.ConstructTribits` | libs/coding/trellis.c:382-412 | the loop stores tribit k from bits 3k..3k+2, giving exactly `TribitsFromBinary` of the input |
| `TrellisCodec.DecodeBurst` | libs/coding/trellis.c:44-412 | a decoded burst is 144 bits in {0,1} |
| `TrellisCodec.EncodeBurst` | libs/coding/trellis.c:44-412 | an encoded burst is 196 bits in {0,1} |
| `TrellisCodec.BinaryIgnoresTerminator` | libs/coding/trellis.c:366-370 | the binary payload does not depend on the 49th (terminator) tribit |
| `TrellisCodec.BurstRoundTrip` | libs/coding/trellis.c:44-412 | every 144-bit payload survives the whole chain: decoding the burst it encodes to gives it back |

## Left out

- Logging: every `console_get_loglevel` / `console_log` dump, including the corruption message
  at line 301. It is output only and does not affect the results.
- NULL-pointer checks at the start of every function: Dafny arrays are never null.
- Function-local `static` return buffers: each method returns a new array. The model does not
  capture that the source hands back the same buffer on every call, overwriting the previous
  result.
- Out-of-domain cells, which the source skips and so leaves the previous call's contents in place.
  They are excluded by preconditions instead:
  - bits other than 0/1 in `SymbolMapper.ExtractDibits` (lines 60-70, no `else`);
  - dibits other than ±1/±3 in `SymbolMapper.ConstructPayloadInfoBits` (line 104,
    `default: break`) and `ConstellationMapper.GetConstellationPoints` (lines 192-209, no `else`);
  - points above 15 in `ConstellationMapper.ConstructDeinterleavedDibits` (line 255,
    `default: break`).
- ConstructConstellationPoints: requires tribits 0..7. With a larger value, the C code reads
  another state's row or runs past the end of the table, and then uses that value as the next
  state.
- Buffer lengths: trellis.h, which declares the buffer types, is not part of this model.
  - The lengths are the protocol's: 196 info bits, 98 dibits, 49 points, 49 decoded tribits,
    48 payload tribits and 144 binary bits. The `sizeof(...)` loop bounds are read as those
    element counts.
  - `BitPacker.ExtractBinary` accepts any buffer of at least 48 tribits and reads the first 48,
    as the source does with the decoder's 49-tribit output.
  - `BitPacker.ConstructTribits` returns the 48 tribits it writes.
- Bit operations are written arithmetically on the 0..255 cell values: `t & 0b100`,
  `t & 0b010` and `t & 0b001` as `(t / 4) % 2`, `(t / 2) % 2` and `t % 2`, and the `|` of three
  disjoint shifted flags as their sum.
- `libs/aprs/aprs.c` is not part of this model. It is an APRS-IS TCP client thread: sockets,
  DNS, mutexes, condition variables and retry timing.
- `libs/dmrpacket/dmrpacket-control.c` is not part of this model. It is a wrapper over a
  bit-to-byte helper whose source is not available.
- `libs/base/log.h` holds prototypes only.

## Findings

| source | as written | input that shows it | evidently intended | confidence | as-written member | corrected member |
|---|---|---|---|---|---|---|
| libs/coding/trellis.c:333-338 | the encoder loops over every cell of the tribit buffer, then stores the terminator at index i, one past the last cell. `trellis_extract_tribits` writes 49 cells of that buffer type (lines 287-295), so the loop runs at least 49 times and the terminator lands at index 49 or later. That is past the end of the 49-point buffer the decoder reads (line 287). | any call. For a buffer whose 49th cell is 0, as `trellis_construct_tribits` leaves it, the 49 intended points are stored, followed by a 50th point (0) | encode the 48 payload tribits and store the terminator as point 48 | not executed; relies on trellis.h sizing the buffers as the loops that use them imply (49 points, at least 49 tribit cells) | `TrellisStateMachine.EncodeTribitBuffer`, exhibited by `TrellisStateMachine.TribitBufferEncodingOverruns` | `TrellisStateMachine.ConstructConstellationPoints` (specified by `TrellisStateMachine.Encode`, proved by `TrellisStateMachine.DecodeAfterEncode`) |
