# TurboLink engine: a verified model

This project models the native transfer engine of TurboLink, the C and C++ code under
`android/app/src/main/cpp`, and proves what its three layers do together:

* the Reed-Solomon erasure code over GF(2^8) (`reed_solomon_fec.h`): tables, encoding matrix,
  in-place inverter, encoder and decoder;
* the encryption pipe (`crypto_pipe.h`): ChaCha20, the 64-bit limb arithmetic of the MAC, and
  the tag-checked encrypt/decrypt pair;
* the send thread (`turbolink_engine.cpp`, with `mmap_reader.h`, `protocol.h` and the size check
  of `udp_socket.h`) as a trace of datagrams, cancelled at an arbitrary poll of its flag.

Code that works in place is modelled by methods over arrays and classes, each proved equal to a
function on values; the theorems are about those functions.

| module | holds |
|---|---|
| GaloisField, GaloisTables | the field, its logarithms, the tables and their lookups |
| LinearAlgebra, GaussJordan | vectors, row operations, the inverter and its exactness |
| Recovery | loss patterns that the encoding matrix can or cannot undo |
| Minors, SmallMinors, MinorSizes, Sufficiency | for which codes any k of the n symbols are enough |
| ReedSolomon, RsCodec | the codec as functions, and as the loops of the source |
| TableEntry, ShippedTable | which exp table the codec needs, and what the shipped one does to it |
| ChaCha20, ChaChaVectors, Poly1305, PolyMessage, PolyTag, Aead | the encryption pipe |
| Protocol, MmapReader | wire formats and the partition of a file |
| SendThread, SendTrace, EndToEnd, AnyFrames | one run of the sender, its trace, and what a receiver gets back |
| Bytes, Arithmetic, Options | little-endian integers, products, optional results |

## Findings

**Exp entry 255.** Line 46 of `reed_solomon_fec.h` stores 0 in `gf_exp[255]`, which line 41 had
set to 1. Every operation of the model takes the stored byte `w` as a parameter (the field
`entry` of `Tables`): `w = 0` is the code as it is, `w = 1` the field the comments describe. The
loops are proved for every `w`. `TableEntry` shows that each of these holds of all inputs iff
`w = 1`: the field laws, a sound and a complete inverter, the refusal of repeated
indices, the round trip, the recovery of losses. With any other entry the inverter accepts the
singular rows [1,2], [1,2], so that repair symbol 2 of a two-symbol block, received twice, is
decoded instead of refused. The theorems of `LinearAlgebra`, `GaussJordan`, `ReedSolomon` and the
recovery theorems of `EndToEnd` and `SendTrace` are therefore stated at `w = 1`.

For `w = 0`, `ShippedTable` covers every reception: column 0 of the encoding matrix holds only
zeros and ones, the inverse of 1 reads 0, and so the decoder returns zeros for the whole first
symbol of the block whatever it receives (`FirstSymbolErased`). With all source symbols present,
in any order, it returns only zeros (`SourcesRoundTripExact`), so that a block survives every
reception that is not refused exactly when it is all zeros (`SurvivesExactly`).
`EndToEnd.BlockShippedBound`, `EndToEnd.BlockShippedExact`, `SendTrace.WireShippedBound` and
`SendTrace.FileShipped` carry this through decryption to the wire.

**"Any K of N".** The comment at `fec_interface.h:13` is false of this matrix in general
(`Recovery.AnyKOfNFails` is one refutation). `Sufficiency.AnyKOfNExact` says for which codes it
holds: k or n - k at most 3, or one of them 4 and the other at most 21, or both 5, and no others.
The sender's own ratio stays within this up to 21 source symbols, a file of 29384 bytes
(`AnyFrames.SenderAnyK`, `AnyFrames.FileAnyFramesExact`). Beyond it, `Recovery.ProgressionExact`
and `Recovery.TwoLossExact` decide the losses made up by repair symbols in arithmetic progression
and the losses of two symbols, and `ReedSolomon.LossRecovery` is the family always recovered.

**Large blocks.** A full 1 MiB block needs 749 source symbols, the encoder refuses more than 255
symbols in all, and the send thread ignores its return code; such a block gets no data frame at
all while `bytes_sent` still counts it. The exact limit is 298184 bytes per block
(`SendTrace.BlockCarriedExact`, `SendTrace.FileCarriedExact`).

**The MAC.** It is not the Poly1305 of RFC 8439. Line 143 can lose a carry, the limb product is
cut at 2^192, `c_out * 5` can wrap, and there is no final reduction. `Poly1305.StepExactly` is the
exact condition for one turn, and `Poly1305.FullBlockExactly` what it comes to on a full block:
every clamped key with r1 != 0 gets every full block wrong. `PolyMessage.AccumulatorExact`
accounts for a message of any length by the losses of its turns, which are computed from the run's
own limbs; for at most 16 bytes `PolyTag.ShortTagExact` is a condition on message and key alone.
Under a key with r1 != 0 no message of 16 bytes or more is accumulated turn by turn as the RFC
does (`PolyMessage.LongMessagesAreInexact`), and no 16-byte message gets the RFC's tag (`PolyTag.OneBlockTagIsWrong`). Where the accumulator is
right, the missing reduction can still spoil the tag (`PolyTag.TagExact`, `PolyTag.UnreducedTag`).
Both ends compute the same tag, and everywhere else it is only a function of key and message.

**Block count.** `total_blocks` is stored in 32 bits; the blocks cover the file iff the count fits
(`MmapReader.PartitionExact`).

## Model

| member | source | states |
|---|---|---|
| GaloisField.PowEqual | android/app/src/main/cpp/reed_solomon_fec.h:36-49 | The generator 2 has order exactly 255 under 0x11D: two powers agree iff their exponents agree mod 255. |
| GaloisField.LogExists | android/app/src/main/cpp/reed_solomon_fec.h:36-49 | The 255 powers reach every nonzero byte, so every nonzero byte has a logarithm below 255 (what makes the log table total). |
| GaloisField.MulIsCarryless | android/app/src/main/cpp/reed_solomon_fec.h:55-58 | With entry 255 = 1: the log/exp product is carry-less multiplication reduced by 0x11D, an independent shift-and-add definition. |
| GaloisField.MulAssoc | android/app/src/main/cpp/reed_solomon_fec.h:55-58 | With entry 255 = 1: the table product is associative. |
| GaloisField.MulAdd | android/app/src/main/cpp/reed_solomon_fec.h:51-58 | With entry 255 = 1: the table product distributes over XOR. |
| GaloisField.MulInverse | android/app/src/main/cpp/reed_solomon_fec.h:65-68 | With entry 255 = 1: every nonzero byte times its table inverse is 1. |
| GaloisField.TableMulExact | android/app/src/main/cpp/reed_solomon_fec.h:36-58 | For any stored entry: a product equals the field product iff the logs do not sum to 255 or the entry is 1. |
| GaloisField.TableInvExact | android/app/src/main/cpp/reed_solomon_fec.h:36-68 | A nonzero byte times its table inverse is 1 iff the byte is not 1 or the entry is 1. |
| GaloisField.TableDivExact | android/app/src/main/cpp/reed_solomon_fec.h:36-63 | For nonzero bytes, dividing and multiplying back returns the dividend iff the two bytes differ or the entry is 1. |
| GaloisTables.Tables.Init | android/app/src/main/cpp/reed_solomon_fec.h:36-49 | The loop fills both tables with powers and logarithms; the entry stored last is whatever line 46 stores; a second call changes nothing. |
| GaloisTables.Tables.Mul | android/app/src/main/cpp/reed_solomon_fec.h:55-58 | The lookup of gf_mul equals the table product over the tables left by gf_init. |
| GaloisTables.Tables.Div | android/app/src/main/cpp/reed_solomon_fec.h:60-63 | The lookup of gf_div equals the table quotient. |
| GaloisTables.Tables.Inv | android/app/src/main/cpp/reed_solomon_fec.h:65-68 | The lookup of gf_inv equals the table inverse. |
| GaloisTables.Tables.MulXorRegion | android/app/src/main/cpp/reed_solomon_fec.h:71-83 | All three paths (c = 0, c = 1, logs) add the same table product to each of the first len bytes and leave the rest alone. |
| LinearAlgebra.ScaleSolves | android/app/src/main/cpp/reed_solomon_fec.h:131-136 | With entry 255 = 1: scaling a row of both matrices by a nonzero byte keeps the solution set of A x = B y. |
| LinearAlgebra.EliminateSolves | android/app/src/main/cpp/reed_solomon_fec.h:138-147 | With entry 255 = 1: eliminating with the pivot row keeps the solution set of A x = B y, both ways. |
| GaussJordan.StepSolves | android/app/src/main/cpp/reed_solomon_fec.h:108-148 | With entry 255 = 1: one pass (pivot search, swap, scale, eliminate) keeps the solution set. |
| GaussJordan.StepUnitColumns | android/app/src/main/cpp/reed_solomon_fec.h:108-148 | With entry 255 = 1: after pass i the first i+1 columns are unit columns. |
| GaussJordan.InvertSound | android/app/src/main/cpp/reed_solomon_fec.h:103-154 | With entry 255 = 1: when the inverter succeeds, R y = x iff M x = y, for all vectors. |
| GaussJordan.InvertIsInverse | android/app/src/main/cpp/reed_solomon_fec.h:103-154 | With entry 255 = 1: when the inverter succeeds, R M = I and M R = I. |
| GaussJordan.InvertComplete | android/app/src/main/cpp/reed_solomon_fec.h:103-154 | With entry 255 = 1: the inverter fails iff the matrix has a nonzero kernel vector. |
| GaussJordan.EqualRowsFail | android/app/src/main/cpp/reed_solomon_fec.h:103-154 | With entry 255 = 1: two equal rows always make it fail. |
| Recovery.ProgressionKernel | android/app/src/main/cpp/reed_solomon_fec.h:88-100 | Vandermonde argument: a vector supported on e columns with distinct nodes and annihilated by e repair rows in arithmetic progression is zero. |
| Recovery.ProgressionExact | android/app/src/main/cpp/reed_solomon_fec.h:88-100 | With the lost columns replaced by repair rows first, first+d, first+2d, ... the decoding matrix is singular iff 255 divides d*(c'-c) for two lost columns. |
| Recovery.ConsecutiveRecovers | android/app/src/main/cpp/reed_solomon_fec.h:88-100 | Consecutive repair rows recover every loss pattern of a legal code. |
| Recovery.TwoLossExact | android/app/src/main/cpp/reed_solomon_fec.h:88-100 | Two losses c1, c2 with repair rows r1, r2: singular iff 255 divides (r2-r1)*(c2-c1). |
| Recovery.AnyKOfNFails | android/app/src/main/cpp/fec_interface.h:13 | One refutation of "any K of the N symbols": k = 86, columns 0 and 85 lost, repair symbols 86 and 89 held, in any order. |
| Minors.TransposeNonsingular | android/app/src/main/cpp/reed_solomon_fec.h:88-154 | With entry 255 = 1: the transpose of a nonsingular matrix is nonsingular (proved through the inverter). |
| Minors.AmbivalentExact | android/app/src/main/cpp/reed_solomon_fec.h:88-100 | Some nonzero loss on the given columns is invisible to the given repair rows iff the minor of those rows and columns is singular. |
| SmallMinors.NoShortSum | android/app/src/main/cpp/reed_solomon_fec.h:36-49 | No sum 1 + a^i + a^j with 0 < i < j <= 20 is zero. |
| MinorSizes.SizesExact | android/app/src/main/cpp/reed_solomon_fec.h:88-100 | The first r repair rows over k columns have no singular minor iff k or r is at most 3, or one is 4 and the other at most 21, or both are 5. |
| Sufficiency.AnyKOfNExact | android/app/src/main/cpp/fec_interface.h:13 | Exact answer to "any K of the N symbols" for every legal code k <= n <= 255: every choice of k symbols is decodable iff k or n-k is at most 3, or one is 4 and the other at most 21, or both are 5. |
| Sufficiency.AnyKDecodeExact | android/app/src/main/cpp/fec_interface.h:13 | With entry 255 = 1: any k different encoded symbols of a block, in any order, decode to it iff the sizes are those. |
| ReedSolomon.DecodeExact | android/app/src/main/cpp/reed_solomon_fec.h:158-262 | With entry 255 = 1: any k or more symbols of an encoded block, in any order: the decoder returns the block byte for byte (padding dropped) iff the selected matrix is nonsingular, and fails otherwise; the 255-row and n-row matrices agree. |
| ReedSolomon.ProgressionRecovery | android/app/src/main/cpp/reed_solomon_fec.h:158-262 | With entry 255 = 1: exact recovery criterion for repair symbols in progression of step d. |
| ReedSolomon.LossRecovery | android/app/src/main/cpp/reed_solomon_fec.h:158-262 | With entry 255 = 1: any lost set made up by as many consecutive repair symbols, in any order, gives the block back. |
| ReedSolomon.RepeatFails | android/app/src/main/cpp/reed_solomon_fec.h:223-237 | With entry 255 = 1: a repeated index among the first k symbols makes the decoder fail. |
| ReedSolomon.SourcesExact | android/app/src/main/cpp/reed_solomon_fec.h:163-191 | The encoder gives k plus the repair count symbols, numbered from 0 and all of the symbol size; the data of the first k, joined, is the block padded with zeros. |
| ReedSolomon.RepairExact | android/app/src/main/cpp/reed_solomon_fec.h:193-203 | Each byte of repair symbol i is the row of generator powers of exponent i-k+1 applied to that byte position of the padded block, for every stored entry. |
| ReedSolomon.EncodedByte | android/app/src/main/cpp/reed_solomon_fec.h:180-203 | With entry 255 = 1: every encoded byte, source or repair, is its matrix row applied to that byte position of the source symbols. |
| RsCodec.BuildMatrix | android/app/src/main/cpp/reed_solomon_fec.h:88-100 | The loops write identity rows, then rows of generator powers. |
| RsCodec.SwapRowPair | android/app/src/main/cpp/reed_solomon_fec.h:119-128 | Rows i and j of both matrices are exchanged in place. |
| RsCodec.ScaleRowPair | android/app/src/main/cpp/reed_solomon_fec.h:131-136 | Row i of both matrices is scaled in place by the inverse of its pivot. |
| RsCodec.EliminateRowPair | android/app/src/main/cpp/reed_solomon_fec.h:140-146 | Row j of both matrices gains factor times row i, in place. |
| RsCodec.SearchPivot | android/app/src/main/cpp/reed_solomon_fec.h:109-118 | The first row from i on with a nonzero entry in column i, or k when there is none. |
| RsCodec.InvertPass | android/app/src/main/cpp/reed_solomon_fec.h:108-148 | One turn of the in-place loop is one Step of the specification, or -1 with no pivot. |
| RsCodec.InvertMatrix | android/app/src/main/cpp/reed_solomon_fec.h:103-154 | The in-place inverter returns 0 and leaves the specified inverse, or -1. |
| RsCodec.EncodeBlock | android/app/src/main/cpp/reed_solomon_fec.h:158-209 | The encoding loops return the specified n symbols, or fail when n > 255. |
| RsCodec.SelectRows | android/app/src/main/cpp/reed_solomon_fec.h:218-230 | The decoding matrix holds, for each of the first k symbols, its row of the 255-row matrix. |
| RsCodec.Assemble | android/app/src/main/cpp/reed_solomon_fec.h:239-256 | The recovery loops with the reused buffer write every byte of the output, the short last symbol included. |
| RsCodec.DecodeBlock | android/app/src/main/cpp/reed_solomon_fec.h:211-262 | The decoder returns what the specification says, for every stored entry, including both failures. |
| ShippedTable.DotShipped | android/app/src/main/cpp/reed_solomon_fec.h:46 | With 0 in entry 255, a mixed byte is off by 1 iff an odd number of its products have logs summing to 255. |
| ShippedTable.RepairByteExact | android/app/src/main/cpp/reed_solomon_fec.h:193-203 | A repair byte of the shipped encoder is right iff an even number of its products read entry 255. |
| ShippedTable.IdentityShipped | android/app/src/main/cpp/reed_solomon_fec.h:103-154 | The shipped inverter returns 0 on the identity and leaves the zero matrix. |
| ShippedTable.OwnSlotErased | android/app/src/main/cpp/reed_solomon_fec.h:211-262 | In the shipped decoder a source symbol received in its own slot comes out as zeros. |
| ShippedTable.UnitRowsShipped | android/app/src/main/cpp/reed_solomon_fec.h:103-154 | The shipped inverter returns 0 on unit rows in any order and leaves the zero matrix. |
| ShippedTable.SourcesRoundTripExact | android/app/src/main/cpp/reed_solomon_fec.h:158-262 | With no source symbol lost, in any order, the shipped round trip holds iff the block is all zeros. |
| ShippedTable.FirstSymbolErased | android/app/src/main/cpp/reed_solomon_fec.h:211-262 | Whatever is received, in whatever order, the shipped decoder fails or returns zeros for the whole first symbol of the block. |
| ShippedTable.OnlyZeroStartsReturn | android/app/src/main/cpp/reed_solomon_fec.h:211-262 | So no reception gives back a block that is not zero on its first symbol. |
| ShippedTable.SurvivesExactly | android/app/src/main/cpp/reed_solomon_fec.h:158-262 | For every block that can be encoded: on the shipped table every list of k or more encoded symbols is refused or decoded to the block iff the block is all zeros. |
| TableEntry.AssociativeNeedsOne | android/app/src/main/cpp/reed_solomon_fec.h:36-58 | The table product is associative iff entry 255 holds 1. |
| TableEntry.DistributiveNeedsOne | android/app/src/main/cpp/reed_solomon_fec.h:36-58 | It distributes over XOR iff entry 255 holds 1. |
| TableEntry.InversesNeedOne | android/app/src/main/cpp/reed_solomon_fec.h:36-68 | Every nonzero byte times its table inverse is 1 iff entry 255 holds 1. |
| TableEntry.SoundNeedsOne | android/app/src/main/cpp/reed_solomon_fec.h:36-154 | The inverter returns only inverses, over all matrices, iff entry 255 holds 1. |
| TableEntry.CompleteNeedsOne | android/app/src/main/cpp/reed_solomon_fec.h:36-154 | The inverter fails on exactly the singular matrices iff entry 255 holds 1; otherwise it accepts the equal rows [1,2], [1,2]. |
| TableEntry.RejectsRepeatsNeedsOne | android/app/src/main/cpp/reed_solomon_fec.h:36-262 | A repeated index among the first k symbols always makes the decoder fail iff entry 255 holds 1; otherwise a duplicated repair symbol 2 of a two-symbol block is accepted. |
| TableEntry.RoundTripNeedsOne | android/app/src/main/cpp/reed_solomon_fec.h:36-262 | The codec never returns a wrong block, over all inputs, iff entry 255 holds 1. |
| TableEntry.DecodesExactlyNeedsOne | android/app/src/main/cpp/reed_solomon_fec.h:36-262 | Every reception of k or more encoded symbols is decoded to the block, or refused when singular, iff entry 255 holds 1. |
| TableEntry.RecoversLossesNeedsOne | android/app/src/main/cpp/reed_solomon_fec.h:36-262 | Losses made up by consecutive repair symbols are always recovered iff entry 255 holds 1. |
| ChaChaVectors.RotationsExact | android/app/src/main/cpp/crypto_pipe.h:32 | For every word, the rotations by 7, 8, 12 and 16 are that many rotations by one bit. |
| ChaChaVectors.QuarterVector | android/app/src/main/cpp/crypto_pipe.h:34-38 | The test vector of section 2.1.1 of RFC 8439. |
| ChaChaVectors.DoubleRoundWords | android/app/src/main/cpp/crypto_pipe.h:45-56 | For every state, a double round is a quarter round on each of the four columns, then on each of the four diagonals, word by word. |
| ChaChaVectors.CounterSteps | android/app/src/main/cpp/crypto_pipe.h:85 | The block counter advances by one per block, modulo 2^32. |
| ChaChaVectors.BlockVector | android/app/src/main/cpp/crypto_pipe.h:40-78 | The sixteen words of the block of section 2.3.2 of RFC 8439, from its key, nonce and counter. |
| ChaChaVectors.StreamVector | android/app/src/main/cpp/crypto_pipe.h:67-95 | The first bytes of the ciphertext of section 2.4.2 of RFC 8439. |
| ChaCha20.QuarterAtInverse | android/app/src/main/cpp/crypto_pipe.h:34-38 | A quarter-round on any four distinct words is undone by the explicit inverse, and undoes it. |
| ChaCha20.DoubleRoundInverse | android/app/src/main/cpp/crypto_pipe.h:45-56 | The eight quarter-rounds are undone by the inverse ones in reverse order, both ways. |
| ChaCha20.RoundsInverse | android/app/src/main/cpp/crypto_pipe.h:40-56 | Any number of double rounds is a bijection on 16-word states with an explicit inverse. |
| ChaCha20.QuarterRound | android/app/src/main/cpp/crypto_pipe.h:34-38 | The macro on x[a], x[b], x[c], x[d] in place is the quarter-round on values. |
| ChaCha20.ChachaBlock | android/app/src/main/cpp/crypto_pipe.h:40-61 | The block function is ten double rounds of a copy plus the input, word by word modulo 2^32. |
| ChaCha20.ChachaXor | android/app/src/main/cpp/crypto_pipe.h:67-95 | For every length, out[j] = in[j] xor byte j mod 64 of the block at counter + j/64 modulo 2^32; bytes past len are untouched. |
| ChaCha20.XorStreamInvolution | android/app/src/main/cpp/crypto_pipe.h:63-95 | Applying the stream twice returns the input. |
| ChaCha20.XorStreamSplit | android/app/src/main/cpp/crypto_pipe.h:67-95 | Splitting the input at a multiple of 64 and advancing the counter (modulo 2^32) gives the same stream. |
| Poly1305.Mul64Exact | android/app/src/main/cpp/crypto_pipe.h:153-164 | MUL is exact: hi*2^64 + lo = a*b for all 64-bit words. |
| Poly1305.MulAccExact | android/app/src/main/cpp/crypto_pipe.h:166-197 | For all limbs the product steps leave h*r modulo 2^192. |
| Poly1305.AddBlockExact | android/app/src/main/cpp/crypto_pipe.h:138-144 | For h2 <= 4, adding a block is exact, except that 2^128 is lost when h0 + n0 carries and n1 is all ones (line 143). |
| Poly1305.ReduceExact | android/app/src/main/cpp/crypto_pipe.h:199-206 | The partial reduction subtracts c_out*(2^130-5), less 2^64 when c_out*5 wraps, and leaves h2 <= 4. |
| Poly1305.StepExactly | android/app/src/main/cpp/crypto_pipe.h:126-209 | For a clamped r and h2 <= 4, a turn is (h+n)*r modulo 2^130-5 iff r = 0, or no carry is lost and floor((h+n)*r / 2^130) * 5 < 2^64. |
| Poly1305.BufferNumber | android/app/src/main/cpp/crypto_pipe.h:129-137 | The 17-byte buffer read as words is the chunk with a 1 byte appended, as section 2.5 of RFC 8439 defines it. |
| Poly1305.ClampedKey | android/app/src/main/cpp/crypto_pipe.h:106-116 | The masks leave r0, r1 < 2^60 and r1 a multiple of 4. |
| Poly1305.StepValue | android/app/src/main/cpp/crypto_pipe.h:126-209 | For every input with h2 <= 4, a turn is (h+n)*r less its shortfall (a lost carry times r, the bits from 2^192 up, 2^64 for a wrapped fold), up to a multiple of 2^130-5. |
| Poly1305.ShortfallVanishes | android/app/src/main/cpp/crypto_pipe.h:126-209 | For a clamped r the shortfall is a multiple of 2^130-5 iff r = 0 or nothing is lost at all. |
| Poly1305.LowKeyExactly | android/app/src/main/cpp/crypto_pipe.h:126-209 | With r1 = 0, a turn is right iff r0 = 0 or line 143 loses no carry. |
| Poly1305.FullBlockExactly | android/app/src/main/cpp/crypto_pipe.h:126-209 | A turn over a full block is right iff r = 0, or r1 = 0 and no carry is lost: every key with r1 != 0 gets every full block wrong. |
| Poly1305.TurnCanBeWrong | android/app/src/main/cpp/crypto_pipe.h:126-209 | A clamped r and a block of zeros for which a turn is not (h+n)*r modulo 2^130-5. |
| Poly1305.Turn | android/app/src/main/cpp/crypto_pipe.h:138-206 | The loop body, assignment by assignment on wrapping words, is the specified step. |
| Poly1305.Poly1305Auth | android/app/src/main/cpp/crypto_pipe.h:103-217 | The tag written at an offset of the buffer is the specified tag; nothing else changes. |
| PolyMessage.ClampExact | android/app/src/main/cpp/crypto_pipe.h:106-116 | The two masked words are r as section 2.5 of RFC 8439 clamps it, bit by bit of the first 16 key bytes. |
| PolyMessage.AccumulatorExact | android/app/src/main/cpp/crypto_pipe.h:122-209 | For every message and key, the accumulator is congruent to the polynomial of section 2.5.1 of RFC 8439 iff the losses of the turns, each multiplied by r in every later turn, cancel modulo 2^130-5. |
| PolyMessage.ExactTurnsLoseNothing | android/app/src/main/cpp/crypto_pipe.h:122-209 | They do when every turn meets the condition of StepExactly. |
| PolyMessage.LongMessagesAreInexact | android/app/src/main/cpp/crypto_pipe.h:122-209 | Under r1 != 0 no message of 16 bytes or more meets it. |
| PolyMessage.OneBlockIsWrong | android/app/src/main/cpp/crypto_pipe.h:122-209 | Under r1 != 0 the accumulator of every 16-byte message differs from the RFC's. |
| PolyTag.TagAgrees | android/app/src/main/cpp/crypto_pipe.h:211-216 | For every message and key, the tag is the one of section 2.5.1 of RFC 8439 iff the two accumulators agree on their low 128 bits. |
| PolyTag.TagExact | android/app/src/main/cpp/crypto_pipe.h:211-216 | When the losses cancel, the tag is the RFC's iff the accumulator is already below 2^130-5. |
| PolyTag.ShortTagExact | android/app/src/main/cpp/crypto_pipe.h:103-217 | For a message of 1 to 16 bytes with product x = n*r (r as the RFC clamps it), the tag is the RFC's iff floor(x / 2^130) * 5 < 2^64 and (x mod 2^130) + floor(x / 2^130) * 5 < 2^130-5. |
| PolyTag.OneBlockTagIsWrong | android/app/src/main/cpp/crypto_pipe.h:103-217 | Under r1 != 0 no 16-byte message gets the RFC's tag. |
| PolyTag.UnreducedTag | android/app/src/main/cpp/crypto_pipe.h:211-216 | One block of 0xff bytes under r = 2: every turn is exact and the tag is not the one of RFC 8439. |
| Aead.DecryptExact | android/app/src/main/cpp/crypto_pipe.h:231-284 | tl_decrypt returns pt iff the input is tl_encrypt of pt: both inverse directions, for every key and nonce. |
| Aead.OneStream | android/app/src/main/cpp/crypto_pipe.h:231-246 | The output is one ChaCha20 stream from block 0: its first 64 bytes hold the MAC key, the rest is the ciphertext, followed by the tag over the ciphertext. |
| Aead.CompareTags | android/app/src/main/cpp/crypto_pipe.h:273-278 | The OR-accumulated difference is zero iff the tags are equal. |
| Aead.TlEncrypt | android/app/src/main/cpp/crypto_pipe.h:231-246 | Writes the ciphertext and tag of the specification, returns their length, touches nothing past it. |
| Aead.TlDecrypt | android/app/src/main/cpp/crypto_pipe.h:258-284 | Returns -1 iff the input is short or the tag differs (output untouched), else the plaintext and its length. |
| Aead.TlMakeNonce | android/app/src/main/cpp/crypto_pipe.h:290-293 | Four zero bytes and the little-endian counter. |
| Aead.NonceLayout | android/app/src/main/cpp/crypto_pipe.h:286-293 | The nonce of a 64-bit counter is four zero bytes and eight bytes that read little-endian as the counter. |
| Aead.NonceInjective | android/app/src/main/cpp/crypto_pipe.h:286-293 | Different 64-bit counters give different nonces. |
| Protocol.HeaderExact | android/app/src/main/cpp/protocol.h:97-120 | A buffer reads as header h iff it starts with the 15 bytes written for h: the round trip, and rejection of everything else. |
| Protocol.TlWriteHeader | android/app/src/main/cpp/protocol.h:97-108 | Writes those 15 bytes and nothing past them. |
| Protocol.TlReadHeader | android/app/src/main/cpp/protocol.h:110-120 | Returns -1 on a short buffer (output untouched) or a wrong magic (fields already copied), else 0 and the fields. |
| Protocol.DataRoundTrip | android/app/src/main/cpp/protocol.h:84-93 | A data payload reads back to its block index, symbol index and bytes. |
| Protocol.FileRoundTrip | android/app/src/main/cpp/protocol.h:72-82 | A file header payload reads back to the size, block count, FEC mode and name. |
| Protocol.HeaderBytes | android/app/src/main/cpp/protocol.h:32-51 | Every header starts with the bytes 4B 4E 4C 54, and the kinds sent are 1, 2 and 5. |
| Protocol.WireExamples | android/app/src/main/cpp/protocol.h:60-93 | One header, one file payload and one data payload, byte by byte. |
| MmapReader.Mapping.GetBlock | android/app/src/main/cpp/mmap_reader.h:89-99 | NULL past the end, else the bytes from index*size, shortened at the end of the file. |
| MmapReader.BlocksPresent | android/app/src/main/cpp/mmap_reader.h:89-99 | Every block below total_blocks is there and nonempty. |
| MmapReader.JoinedIsPrefix | android/app/src/main/cpp/mmap_reader.h:89-99 | The first n blocks join to the first min(n*size, length) bytes: no gap, no overlap. |
| MmapReader.PartitionExact | android/app/src/main/cpp/turbolink_engine.cpp:132 | The blocks below total_blocks join to the file iff the block count fits the 32 bits it is stored in. |
| SendThread.Sender.SendFrame | android/app/src/main/cpp/udp_socket.h:112-128 | An oversized frame is refused; anything else is appended to the wire with its header. |
| SendThread.Sender.SendSymbols | android/app/src/main/cpp/turbolink_engine.cpp:171-187 | Under cancellation at any poll, a prefix of the symbols goes out, numbered on without a gap. |
| SendThread.Sender.SendBlock | android/app/src/main/cpp/turbolink_engine.cpp:154-197 | One turn of the block loop: a prefix of the block's frames, one poll each, and bytes_sent grows by the block length even when encoding failed. |
| SendThread.Sender.SendBlocks | android/app/src/main/cpp/turbolink_engine.cpp:154-197 | The block loop, cancelled at any poll: each poll that reads true enters a block or sends a frame, and the frames sent end inside the last block entered. |
| SendThread.Sender.Run | android/app/src/main/cpp/turbolink_engine.cpp:131-200 | Every run, cancelled at any poll: file header, a prefix of the data frames numbered 1, 2, ..., COMPLETE; blocks entered + frames sent = min(cancelling poll, blocks + frames of the whole run), with the frames ending inside the last block entered; bytes_sent = min(blocks entered * 1 MiB, size), and the size once the last block is entered; everything when not cancelled. |
| SendThread.StopUnique | android/app/src/main/cpp/turbolink_engine.cpp:154-187 | The poll at which the flag is cleared determines the number of blocks entered and of frames sent. |
| SendTrace.HeadersReadBack | android/app/src/main/cpp/turbolink_engine.cpp:131-200 | In every run frame i reads back through tl_read_header with sequence number i (mod 2^32), its type and its payload length, in at most 1472 bytes; the first is FILE_HEADER, the last COMPLETE. |
| SendTrace.RunAnnounces | android/app/src/main/cpp/turbolink_engine.cpp:131-144 | The first frame of every run reads back to the size of the file, its block count, the FEC mode and the name. |
| SendTrace.BlockCount | android/app/src/main/cpp/turbolink_engine.cpp:132 | Below about 2^52 bytes the announced count is the number of 1 MiB blocks begun. |
| SendTrace.RepairsExact | android/app/src/main/cpp/turbolink_engine.cpp:32 | Repair symbols per block: one for every five source symbols, rounded down, and at least one. |
| SendTrace.FramesIncreasing | android/app/src/main/cpp/turbolink_engine.cpp:154-187 | Data frames are strictly increasing in (block, symbol). |
| SendTrace.NoncesDistinct | android/app/src/main/cpp/turbolink_engine.cpp:161-164 | No two blocks of a file share a nonce. |
| SendTrace.BlockCarriedExact | android/app/src/main/cpp/turbolink_engine.cpp:166-187 | Some data frame carries a block iff the mode is not RaptorQ and the block has at most 298184 bytes; the ignored -1 of the encoder leaves larger blocks, every full 1 MiB block included, off the wire. |
| SendTrace.FileCarriedExact | android/app/src/main/cpp/turbolink_engine.cpp:154-187 | All blocks of a file are carried iff the mode is not RaptorQ and the file has at most 298184 bytes (or its block count is 0). |
| SendTrace.TraceCarries | android/app/src/main/cpp/turbolink_engine.cpp:171-187 | Every frame of a trace between the first and the last is a data frame of some block of the file. |
| SendTrace.BlockDelivered | android/app/src/main/cpp/turbolink_engine.cpp:154-189 | From datagrams of a block, at least k, any order, any repeats: parsing, RS decoding and decryption give the block, unless the received rows are singular (entry 255 = 1). |
| SendTrace.FileDelivered | android/app/src/main/cpp/turbolink_engine.cpp:154-189 | A file of at most 298184 bytes survives any lost source frames made up by as many consecutive repair frames (entry 255 = 1). |
| SendTrace.IntactRunDelivers | android/app/src/main/cpp/turbolink_engine.cpp:131-200 | The data frames of an uncancelled run over such a file give the file back (entry 255 = 1). |
| SendTrace.FileShipped | android/app/src/main/cpp/turbolink_engine.cpp:154-189 | With the shipped entry 0, from the source frames of such a file, in any order, the file comes back iff its ciphertext and tag are all zeros. |
| SendTrace.IntactRunShipped | android/app/src/main/cpp/turbolink_engine.cpp:131-200 | In particular from the data frames of an uncancelled run. |
| SendTrace.WireShippedBound | android/app/src/main/cpp/turbolink_engine.cpp:219-222 | With the shipped entry 0, no datagrams of any origin whose first k symbols are whole and indexed below 255 make the receiver return a block whose ciphertext is not zero on its first symbol. |
| AnyFrames.SenderAnyK | android/app/src/main/cpp/turbolink_engine.cpp:32 | With the sender's repair ratio, any k of the n symbols of a block are enough iff the encrypted block has at most 29400 bytes, that is 21 source symbols. |
| AnyFrames.FileAnyFramesExact | android/app/src/main/cpp/turbolink_engine.cpp:154-189 | In Reed-Solomon mode and with entry 255 = 1: any k different frames of a file that is sent, in any order, give it back iff the file has at most 29384 bytes. |
| EndToEnd.BlockRestoredExact | android/app/src/main/cpp/turbolink_engine.cpp:219-222 | With entry 255 = 1: encrypt, encode, drop and reorder, decode, decrypt: the block comes back iff the received rows are nonsingular, for every symbol size and repair count. |
| EndToEnd.BlockSurvivesLoss | android/app/src/main/cpp/turbolink_engine.cpp:219-222 | With entry 255 = 1: the same with any losses made up by consecutive repair symbols: always the block. |
| EndToEnd.BlockShippedExact | android/app/src/main/cpp/turbolink_engine.cpp:219-222 | With the shipped entry 0, a block whose source symbols all arrive, in any order, comes back iff its ciphertext and tag are all zeros. |
| EndToEnd.BlockShippedBound | android/app/src/main/cpp/turbolink_engine.cpp:219-222 | With the shipped entry 0, no reception returns a block whose ciphertext is not zero on its first symbol. |
| EndToEnd.FileRestoredExact | android/app/src/main/cpp/turbolink_engine.cpp:154-189 | With entry 255 = 1 and at least k symbols of every block, the joined blocks are the file iff no block is left with a singular matrix. |

## Left out

- PolyMessage.AccumulatorExact: its loss is computed along the run, so for messages of more than 16 bytes it is an account of the error and not a test of message and key alone.
- PolyTag.TagExact: asks that the losses of the turns cancel; beyond messages of 16 bytes (PolyTag.ShortTagExact), TagAgrees says only that the low 128 bits of the accumulators decide.
- GaloisField.MulAssoc, MulAdd, MulInverse: stated with 1 in exp entry 255; TableEntry shows that they need it.
- GaussJordan.InvertComplete: stated with 1 in exp entry 255, as are InvertSound, InvertIsInverse and EqualRowsFail; TableEntry shows that they need it.
- ReedSolomon.DecodeExact: stated with 1 in exp entry 255; TableEntry shows that it needs it, and ShippedTable what holds with the shipped 0.
- ReedSolomon.LossRecovery: likewise, with ProgressionRecovery and RepeatFails.
- EndToEnd.BlockRestoredExact: stated with 1 in exp entry 255, as are BlockSurvivesLoss, FileRestoredExact and the delivery theorems of SendTrace; BlockShippedBound and BlockShippedExact are the shipped counterparts.
- ShippedTable.FirstSymbolErased: bounds every reception on the shipped table; which bytes of the later symbols a given reception returns is settled only for source symbols in their own slot or all present (OwnSlotErased, SourcesRoundTripExact).
- RsCodec.DecodeBlock: asks that the first k symbols are at least symbol_size long with indices below 255, which the source takes for granted.
- SendThread.Sender.Run: takes a file name that fits one packet, which the source takes for granted.
- The codec methods take tables that gf_init has filled; the source calls it on entry, and a second call changes nothing (GaloisTables.Tables.Init).
- Matrices are two-dimensional arrays, so the row*k+col indexing and the 32-bit int products in it (and in the symbol count) are not modelled.
- gf_log is an int array; its byte width is not modelled (all values are below 255).
- The float repair ratio: the encoder takes the truncated product as an integer of any sign; the send thread uses k/5 for its constant 0.2f.
- The clamp masks are applied byte by byte, and integers copied with memcpy are little-endian, as on the supported targets.
- Received symbols, keys, plaintexts and ciphertexts that a function only reads are values, so aliasing of input and output buffers is not modelled.
- zstd: the pass-through branch, in which the compressed block is the block.
- RaptorQ: a stub that always fails; the send thread with that mode sends no data frames.
- The receiver: recv_thread_func is a placeholder; EndToEnd and SendTrace compose decode and decrypt in the order its comment gives.
- Cancellation: the flag is read false from one arbitrary poll on, and is never set again.
- Progress callbacks, the double progress value, pacing, logging and speed.
- Sockets, mmap, lseek, pthreads, malloc failure: sending appends to the trace, a mapped file is its bytes.
- Sender-side sequence numbers and byte counts are unbounded integers, reduced modulo 2^32 when written to a header.
- Transfer registry, Dart services, Kotlin discovery and the user interface.
