# LunaNet AFS validator: a verified model

The validator takes a `capture.graw` file of GNSS records, cuts the records into fragments, encodes the fragments
into LunaNet AFS frames (CRC-24Q, LDPC, puncturing, interleaving, packing), sends the frames over UDP, and rebuilds the
file on the other side. This project models that path in Dafny and proves what it is there to deliver. To check it, use
`dafny verify dfyconfig.toml`.

The modules, from the bottom up:

- Algebra over GF(2): `BitStrings`, `Gf2`, `RowSpan`, `Lines` and `SparseMatrix` (the orthogonal doubly linked matrix as a heap class over a set
  of ones), `SparseOps`, `LuAlgebra`, `LuDecomposition`, `Substitution`, `LuSolve`, and the LDPC encoder in
  `LdpcTables` and `LdpcEncoder`.
- The native frame path: `PolynomialCode` (division of bit strings), `BitPacking`, `Crc24q`, `SmallErrors`,
  `Interleaver`, `FrameCodec`.
- Codecs of the managed code: `Division` (uniqueness of quotient and remainder), `BigEndian`, `Crc32`, `PacketCodec`, `FragmentCodec`, `SubframeBits`, `RecordPayloads`,
  `RecordCodec`, `CaptureFile`.
- Protocol and session: `SortedKeys`, `Reassembly`, `AnyOrder`, `FramePreparation`, `FrameReceiver`, `ReceiveLoop`,
  `Delivery`, `Sender`, `ErrorInjection`, `Synchronizer`, `SyncRecovery`, `SyncSession`, `ClockOffset`,
  `StreamAdapter`, `Sb2Pattern`, `ReceiveSession`, `EndToEnd`; `Results` holds the two result types.

The main theorems are `LuSolve.Solve`, `LdpcEncoder.EncodingIsTheCodeword`, `Crc24q.BurstRejected`,
`FrameCodec.FrameRoundTrip`, `AnyOrder.ReadsBackExactly`, `ReceiveLoop.ProcessedExactly`, `EndToEnd.WireDelivers`,
`ReceiveSession.SessionDelivers`, `ReceiveSession.TestDPassesExactly` and `StreamAdapter.ChunkIndependence`.

Arrays, lists and linked nodes that the sources change are changed here too: loops are loops with invariants, each
proved against a function or predicate of its inputs. Exceptions and error returns are values (`Result`, `Outcome`,
`Phase`); one `InvalidData` stands for whichever exception a call throws. The surroundings are parameters of the
theorems, universally quantified: the LDPC decoder, SHA-256 (an arbitrary function of the file), JSON reading of the
manifest, UTF-8, the clock, the drop rule, the random places of injected errors, and the arriving datagrams.

Where a property fails, the model keeps the code's behaviour and states when it fails:

- A SessionEnd that overtakes every SessionStart uses up its key and the receiver waits for ever
  (`ReceiveLoop.OvertakingEndHangs`); an early first copy of a frame is lost with all its copies
  (`ReceiveLoop.EarlyCopyUsesUpKey`).
- Re-synchronisation throws exactly when a found pattern leaves no room for a frame or stands in a frame whose arguments
  the codec refuses (`SyncRecovery.ThrowsExactly`). For whole frames that is a pattern past the start of the last frame,
  or one in a frame whose interval is above 99 (`SyncRecovery.WholeFramesThrow`; one input for each in
  `SyncRecovery.SpuriousPatternThrows` and `SyncRecovery.IntervalAbove99Throws`).
- `mod2sparse_clear` gives all entry blocks back but keeps `next_free`, so clearing a matrix whose free list is not empty
  leaves it pointing into memory that was given back. The matrix class counts the free list; `SparseMatrix.Mod2Sparse.Clear`
  says when the matrix is still usable, and whatever inserts after clearing asks for an empty free list, which a newly
  allocated matrix has.
- The sender always uses message type 63 whatever its settings say, so a receiver set to another type never succeeds
  (`Delivery.OtherTypeNeverSucceeds`).
- The substitutions set places without a pivot to zero and can miss a solution that needs a one there
  (`Substitution.FreePlacesCanMissSolution`); their contracts say exactly which solutions they find.
- A fragment that states another record length than it carries is taken, and the reading back of the records then throws
  (`Reassembly.LyingLengthThrows`); with honest decodings it does not (`ReceiveSession.TestDPassesWhenRecovered`).
- A metadata record re-encodes to itself exactly when its texts do (`RecordCodec.EncodeInvertsDecode`).

## Model

| member | source | states |
|---|---|---|
| `SparseMatrix.Mod2Sparse.Find` | 오픈소스/LANS-AFS-SIM-main/ldpc/mod2sparse.c:294-349 | returns an entry exactly when the place holds a one, and it is the entry of that place |
| `SparseMatrix.Mod2Sparse.Insert` | 오픈소스/LANS-AFS-SIM-main/ldpc/mod2sparse.c:354-446 | the set of ones becomes the old set plus the place (so inserting twice changes nothing), every row list stays sorted by column, every column list by row, and both hold the same nodes; the free list loses one entry, a block of ten being allocated when it is empty |
| `SparseMatrix.Mod2Sparse.ColSlot` | 오픈소스/LANS-AFS-SIM-main/ldpc/mod2sparse.c:406-436 | the column search of insert finds its slot and never reaches the "Garbled matrix" exits, because a place that is not in its row list is not in its column list |
| `SparseMatrix.Mod2Sparse.Delete` | 오픈소스/LANS-AFS-SIM-main/ldpc/mod2sparse.c:451-474 | exactly one one leaves the set; both families of lists stay sorted and agree; the entry goes to the free list |
| `SparseMatrix.Mod2Sparse.Clear` | 오픈소스/LANS-AFS-SIM-main/ldpc/mod2sparse.c:129-152 | the set of ones becomes empty with every header linked to itself; the matrix can be used on if and only if its free list was empty, since the blocks are given back and next_free is kept |
| `Gf2.TimesMatMul` | 오픈소스/LANS-AFS-SIM-main/ldpc/mod2sparse.c:619-708 | for all matrices and vectors, multiplying by a product is multiplying twice: (ST)u = S(Tu) |
| `Gf2.TimesXor` | 오픈소스/LANS-AFS-SIM-main/ldpc/mod2sparse.c:684-708 | multiplication is linear: A (u + v) = A u + A v, for every matrix |
| `SparseOps.MulVec` | 오픈소스/LANS-AFS-SIM-main/ldpc/mod2sparse.c:684-708 | the column-scatter loop computes the row inner products over GF(2) |
| `SparseOps.MergeDot` | 오픈소스/LANS-AFS-SIM-main/ldpc/mod2sparse.c:651-670 | the merge of two sorted lists computes the parity of their common indices |
| `SparseOps.Multiply` | 오픈소스/LANS-AFS-SIM-main/ldpc/mod2sparse.c:619-679 | the result matrix, if its free list was empty, is the GF(2) product of the operands |
| `SparseOps.AddRow` | 오픈소스/LANS-AFS-SIM-main/ldpc/mod2sparse.c:767-810 | row1 becomes row1 XOR row2 and every other row is unchanged, for two matrices, two rows of one matrix, or a row and itself |
| `LuDecomposition.Copy` | 오픈소스/LANS-AFS-SIM-main/ldpc/mod2sparse.c:157-184 | the target, if its free list was empty, holds exactly the ones of the source |
| `LuDecomposition.CountRow` | 오픈소스/LANS-AFS-SIM-main/ldpc/mod2sparse.c:713-735 | the number of ones of the row |
| `LuDecomposition.CountCol` | 오픈소스/LANS-AFS-SIM-main/ldpc/mod2sparse.c:740-762 | the number of ones of the column |
| `LuDecomposition.FirstPivot` | 오픈소스/LANS-AFS-SIM-main/ldpc/mod2sparse.c:940-957 | an eligible entry of the first column that has one; none means that no remaining column has one |
| `LuDecomposition.MinColPivot` | 오픈소스/LANS-AFS-SIM-main/ldpc/mod2sparse.c:959-981 | an eligible entry in a column that is shortest among those with an eligible entry |
| `LuDecomposition.MinProdPivot` | 오픈소스/LANS-AFS-SIM-main/ldpc/mod2sparse.c:983-1005 | an eligible entry of least (column count - 1)(row count - 1), a column with a single one costing nothing |
| `LuDecomposition.CostIsFillIn` | 오픈소스/LANS-AFS-SIM-main/ldpc/mod2sparse.c:983-1005 | that product is the number of other ones of the column times the number of other ones of the row, the fill-in a step can cause |
| `LuDecomposition.SwapIn` | 오픈소스/LANS-AFS-SIM-main/ldpc/mod2sparse.c:1023-1037 | the two positions of the order change places and the inverse order follows |
| `LuDecomposition.PickPivot` | 오픈소스/LANS-AFS-SIM-main/ldpc/mod2sparse.c:932-1038 | a pivot is brought to position i by whichever strategy; neither abort can happen |
| `LuDecomposition.Sweep` | 오픈소스/LANS-AFS-SIM-main/ldpc/mod2sparse.c:1040-1073 | one elimination step: rows below get the pivot row added and are recorded in L, rows above and the pivot go into U, the column of B is emptied |
| `LuAlgebra.StepKeeps` | 오픈소스/LANS-AFS-SIM-main/ldpc/mod2sparse.c:1040-1073 | for every matrix and every step, the relation "A is what L, U and the rest B explain" is kept |
| `LuAlgebra.ReorderKeeps` | 오픈소스/LANS-AFS-SIM-main/ldpc/mod2sparse.c:1017-1038 | bringing a pivot into place keeps that relation |
| `LuDecomposition.Decomp` | 오픈소스/LANS-AFS-SIM-main/ldpc/mod2sparse.c:863-1136 | for every matrix, strategy and number of missing pivots, with L and U whose free lists are empty: row and column orders are permutations, L and U are triangular under them, with exactly the found pivots on their diagonals, LU = A on the chosen K rows and columns, and if a pivot was missing every row of A is a sum of the rows chosen before |
| `LuAlgebra.RowsSpanned` | 오픈소스/LANS-AFS-SIM-main/ldpc/mod2sparse.c:935-1073 | if a pivot was missing, the rows chosen before span all rows of A |
| `LuAlgebra.ChosenIndependent` | 오픈소스/LANS-AFS-SIM-main/ldpc/mod2sparse.c:863-1136 | the K - nnf pivot rows are linearly independent, so a return value above 0 is exactly what the rank of A lacks to K |
| `Substitution.ForwardSub` | 오픈소스/LANS-AFS-SIM-main/ldpc/mod2sparse.c:1141-1203 | Solved exactly when the lower triangular system has a solution whose places without a pivot are zero, and y is then that solution; the shape check is exact |
| `Substitution.BackwardSub` | 오픈소스/LANS-AFS-SIM-main/ldpc/mod2sparse.c:1208-1270 | the same for the upper triangular system, with the columns outside the order kept as given |
| `Substitution.FreePlacesCanMissSolution` | 오픈소스/LANS-AFS-SIM-main/ldpc/mod2sparse.c:1141-1203 | a solvable singular system for which the routine reports no solution, because it sets free places to zero |
| `LuAlgebra.SolutionOfProduct` | 오픈소스/LANS-AFS-SIM-main/ldpc/mod2sparse.c:863-1270 | solving with L, then with U, solves the chosen K equations of A |
| `LuSolve.Solve` | 오픈소스/LANS-AFS-SIM-main/ldpc/mod2sparse.c:863-1270 | a return of 0 makes both substitutions succeed; whenever both succeed, z satisfies the chosen K equations of A z = x |
| `LdpcTables.BlocksTimesInverse` | 오픈소스/LANS-AFS-SIM-main/afs_nav.c:451-560 | B (B_Inv u) = u for the tables of subframe 2 (p = 1) and of subframes 3 and 4 (p = 0, lines 2285-2366), for every u and every circulant size from 2 on |
| `LdpcTables.InverseTimesBlocks` | 오픈소스/LANS-AFS-SIM-main/afs_nav.c:3457-3877 | B_Inv (B u) = u for the same tables |
| `LdpcEncoder.Sf2Exists` | 오픈소스/LANS-AFS-SIM-main/afs_nav.c:3457-3698 | a code with the subframe 2 tables exists, so what is proved for such codes is not empty |
| `LdpcEncoder.Sf3Exists` | 오픈소스/LANS-AFS-SIM-main/afs_nav.c:3700-3877 | a code with the subframe 3 tables exists |
| `LdpcEncoder.EncodingIsTheCodeword` | 오픈소스/LANS-AFS-SIM-main/afs_nav.c:3934-3944 | for every s, a pair (p1, p2) satisfies A s + B p1 = 0 and C s + D p1 + p2 = 0 if and only if it is the pair the encoder computes; A, C, D are arbitrary |
| `LdpcEncoder.Build` | 오픈소스/LANS-AFS-SIM-main/afs_nav.c:3893-3899 | the insert loop stores exactly the table |
| `LdpcEncoder.Parities` | 오픈소스/LANS-AFS-SIM-main/afs_nav.c:3934-3944 | the four multiplications and the sum give the parities of the codeword, whether the cached matrices existed or were built |
| `LdpcEncoder.EncodeSf2` | 오픈소스/LANS-AFS-SIM-main/afs_nav.c:3891-3973 | the output is places 240 to 2639 of the one codeword that begins with the data, and of no other |
| `LdpcEncoder.EncodeSf3` | 오픈소스/LANS-AFS-SIM-main/afs_nav.c:3991-4059 | the output is places 176 to 869 and 880 to 1925 of the one word of 4576 bits that begins with the 870 data bits, has zeros at the places 870 to 879, and is a codeword |
| `LdpcEncoder.Sf2Unique` | 오픈소스/LANS-AFS-SIM-main/afs_nav.c:3891-3973 | the data and the code leave only one such word for subframe 2 |
| `LdpcEncoder.Sf3Unique` | 오픈소스/LANS-AFS-SIM-main/afs_nav.c:3991-4059 | the data and the code leave only one such output for subframes 3 and 4 |
| `LdpcEncoder.Sf3Linear` | 오픈소스/LANS-AFS-SIM-main/afs_nav.c:3991-4059 | the encoding of the XOR of two data blocks is the XOR of their encodings |
| `LdpcEncoder.Sf3Zero` | 오픈소스/LANS-AFS-SIM-main/afs_nav.c:3991-4059 | for every code the zero block is encoded to zeros, which no filler but zeros allows |
| `PolynomialCode.DivisionIdentity` | 오픈소스/LANS-AFS-SIM-main/rtklib/rtkcmn.c:46-53 | dividend = quotient times generator plus remainder, for every bit string and generator |
| `PolynomialCode.RemainderZeroIffMultiple` | 오픈소스/LANS-AFS-SIM-main/rtklib/rtkcmn.c:46-53 | remainder zero exactly for the multiples of the generator |
| `PolynomialCode.FeedIsDivision` | 오픈소스/LANS-AFS-SIM-main/rtklib/rtkcmn.c:46-53 | the shift register computes the remainder of the message followed by n zeros |
| `PolynomialCode.WindowDetected` | 오픈소스/LANS-AFS-SIM-main/rtklib/rtkcmn.c:46-53 | a non-zero pattern within n consecutive places, n the degree, has a non-zero remainder, wherever it lies |
| `PolynomialCode.OddWeightDetected` | 오픈소스/LANS-AFS-SIM-main/rtklib/rtkcmn.c:46-53 | when the generator has an even number of terms, every pattern of odd weight has a non-zero remainder |
| `Crc24q.TableEntry` | 오픈소스/LANS-AFS-SIM-main/rtklib/rtkcmn.c:3-36 | each of the 256 table literals is what eight register steps with 0x1864CFB make of its index |
| `Crc24q.Crc24q` | 오픈소스/LANS-AFS-SIM-main/rtklib/rtkcmn.c:46-53 | the table loop computes the remainder of the bit-serial division, for every byte string |
| `Crc24q.LeadingZerosIgnored` | 오픈소스/LANS-AFS-SIM-main/afs_nav.c:4091-4103 | leading zero bits do not change the checksum |
| `Crc24q.SdrPackBits` | 오픈소스/LANS-AFS-SIM-main/pocketsdr/pocketsdr.c:46-52 | the bytes hold nz zero bits, then the data, then zero padding |
| `Crc24q.AppendCrc24` | 오픈소스/LANS-AFS-SIM-main/afs_nav.c:4091-4103 | the last 24 places become the checksum of the others, whatever they held; the others are unchanged |
| `Crc24q.CrcOk` | Native/LnisAfsCodec/lnis_afs_codec.c:45-50 | true exactly when the last 24 places are the checksum of the others |
| `Crc24q.AcceptsIffRemainderZero` | Native/LnisAfsCodec/lnis_afs_codec.c:45-50 | a block is accepted exactly when its remainder is zero |
| `Crc24q.AcceptedBlocksAreMultiples` | Native/LnisAfsCodec/lnis_afs_codec.c:45-50 | a block is accepted exactly when it is a multiple of the generator |
| `Crc24q.BurstRejected` | Native/LnisAfsCodec/lnis_afs_codec.c:45-50 | every change of an accepted block confined to 24 consecutive places, also across the data/CRC boundary, is rejected |
| `Crc24q.OddErrorsRejected` | Native/LnisAfsCodec/lnis_afs_codec.c:45-50 | every change of an odd number of bits of an accepted block is rejected |
| `PolynomialCode.DoubleDetected` | 오픈소스/LANS-AFS-SIM-main/rtklib/rtkcmn.c:46-53 | two ones at distance k have a non-zero remainder unless x^k is one |
| `SmallErrors.PowersDiffer` | 오픈소스/LANS-AFS-SIM-main/rtklib/rtkcmn.c:3-53 | x^k is not one modulo the CRC-24Q generator for k from 1 to 1199 |
| `SmallErrors.DoubleErrorsRejected` | Native/LnisAfsCodec/lnis_afs_codec.c:45-50 | every change of two bits of an accepted block of at most 1200 bits is rejected, wherever they lie |
| `SmallErrors.SmallErrorsRejected` | Native/LnisAfsCodec/lnis_afs_codec.c:45-50 | every change of one, two or three bits of such a block is rejected: accepted blocks differ in at least four bits |
| `BitPacking.Unpack` | Native/LnisAfsCodec/lnis_afs_codec.c:25-29 | element i is bit i, most significant first |
| `BitPacking.Pack` | Native/LnisAfsCodec/lnis_afs_codec.c:31-36 | the bytes are the unique zero-padded packing of the bits |
| `BitPacking.UnpackInvertsPack` | Native/LnisAfsCodec/lnis_afs_codec.c:25-36 | unpacking a packing gives the bits back |
| `BitPacking.PackInvertsUnpack` | Native/LnisAfsCodec/lnis_afs_codec.c:25-36 | packing all bits of a byte string gives it back |
| `Interleaver.InterleaveLoop` | 오픈소스/LANS-AFS-SIM-main/afs_nav.c:4124-4135 | place 60 i + j of the output is place 98 j + i of the input |
| `Interleaver.DeinterleaveLoop` | Native/LnisAfsCodec/lnis_afs_codec.c:116-117 | place 98 i + j of the block is frame symbol 120 + 60 j + i |
| `Interleaver.RoundTrip` | Native/LnisAfsCodec/lnis_afs_codec.c:116-117 | deinterleaving an interleaved block gives it back, and the other way round |
| `Interleaver.InterleaveAt` | 오픈소스/LANS-AFS-SIM-main/afs_nav.c:4124-4135 | the permutation in rows and columns: place 60 i + j comes from place 98 j + i and goes back there |
| `Interleaver.BurstSpreadOverRows` | 오픈소스/LANS-AFS-SIM-main/afs_nav.c:4124-4135 | b consecutive transmitted places hit no row of 98 more than ceil(b/60) times |
| `Interleaver.BurstSpreadApart` | 오픈소스/LANS-AFS-SIM-main/afs_nav.c:4124-4135 | two places of a burst of at most 60 come from places at least 97 apart |
| `FrameCodec.Sf1Injective` | 오픈소스/LANS-AFS-SIM-main/afs_nav.c:4105-4118 | different intervals have different subframes 1 |
| `FrameCodec.Sf1Recurrence` | 오픈소스/LANS-AFS-SIM-main/afs_nav.c:4105-4118 | a zero, the interval in eight bits, and then 43 bits each of which is the sum the taps 0x9F take over the eight before it |
| `FrameCodec.CodeBlocks` | Native/LnisAfsCodec/lnis_afs_codec.c:71-76 | the three blocks with their checksums are coded one behind the other |
| `FrameCodec.EncodeFrame` | Native/LnisAfsCodec/lnis_afs_codec.c:55-82 | the exact error conditions, and otherwise the packed frame: pattern, subframe 1, and the interleaved coded blocks |
| `FrameCodec.SymbolsAreEncodings` | Native/LnisAfsCodec/lnis_afs_codec.c:71-76 | the symbols of a block are the transmitted places of the codeword of data and checksum |
| `FrameCodec.FrameSymbolAt` | Native/LnisAfsCodec/lnis_afs_codec.c:68-79 | symbol 120 + 60 i + j of a frame is place 98 j + i of the coded blocks SB2, SB3, SB4 one behind the other; the first 120 are pattern and subframe 1 |
| `FrameCodec.DecodeSb34` | Native/LnisAfsCodec/lnis_afs_codec.c:84-97 | validity is decoder success and checksum; the output is written only then |
| `FrameCodec.DecodeFrame` | Native/LnisAfsCodec/lnis_afs_codec.c:99-131 | the bad-argument condition, and otherwise, past pattern and subframe 1, for each block from its own decoder: the flag is set if and only if the decoder succeeded and its 24 bits are the checksum of its data, the output is then that data and else the caller buffer, the code is 0 if and only if all three flags are set |
| `FrameCodec.EveryBlockForItself` | Native/LnisAfsCodec/lnis_afs_codec.c:112-130 | which of the answers a frame gets, and that no block depends on what becomes of the other two |
| `FrameCodec.Sf2Layout` | Native/LnisAfsCodec/lnis_afs_codec.c:119-121 | every place given to the SF2 decoder is the codeword bit of that place if it was transmitted, an erasure otherwise |
| `FrameCodec.Sf3Layout` | Native/LnisAfsCodec/lnis_afs_codec.c:87-91 | the same for SF3 and SF4, around the filler places |
| `FrameCodec.BlocksRecovered` | Native/LnisAfsCodec/lnis_afs_codec.c:112-128 | unpacking and deinterleaving an encoded frame gives back pattern, subframe 1 and the three coded blocks |
| `FrameCodec.FrameRoundTrip` | Native/LnisAfsCodec/lnis_afs_codec.c:55-131 | if the LDPC decoders return the systematic bits that were sent, decoding returns the three inputs, code 0 and three valid flags |
| `FrameCodec.WrongIntervalRefused` | Native/LnisAfsCodec/lnis_afs_codec.c:114-115 | a frame decoded for another interval is refused |
| `FrameCodec.MisdecodeCaught` | Native/LnisAfsCodec/lnis_afs_codec.c:94-95 | a decoder result within 24 consecutive bits of the sent block, but not equal to it, is flagged invalid |
| `FrameCodec.NearMissInOneBlock` | Native/LnisAfsCodec/lnis_afs_codec.c:112-130 | a near miss in SB2, SB3 or SB4 makes decoding return code 1 with the flag of that block down and its buffer untouched, while the others keep their own answers |
| `BigEndian.ValueOfBe` | Infrastructure/Afs/Codecs/AfsPacketCodec.cs:21-28 | reading the k bytes of a number below 256^k gives the number |
| `BigEndian.BeOfValue` | Infrastructure/Afs/Codecs/AfsPacketCodec.cs:34-42 | writing the value of a byte string gives the string back |
| `BigEndian.ValueIsPlaceSum` | Infrastructure/Afs/Codecs/AfsPacketCodec.cs:34-42 | the value of a byte string is the sum of byte i times 256 to the power of the number of bytes after it: the first byte weighs most |
| `BigEndian.ByteOfNumber` | Infrastructure/Afs/Codecs/AfsPacketCodec.cs:21-28 | byte i of the k written for n is n / 256^(k-1-i) modulo 256 |
| `BigEndian.ValueOfConcat` | Infrastructure/Afs/Codecs/AfsPacketCodec.cs:34-42 | the value of a + b is the value of a times 256 to the length of b, plus the value of b |
| `BigEndian.TwosComplement` | Infrastructure/Afs/Codecs/AfsPacketCodec.cs:26-42 | a signed number is written as itself modulo the width, and read back |
| `Crc32.ComputeCrc32` | Infrastructure/Common/Hashing.cs:11-16 | the two loops compute the checksum of the reflected register started from all ones |
| `Crc32.HoldsState` | Infrastructure/Common/Hashing.cs:11-16 | after every byte string the register holds the bit-serial division by 0xEDB88320 reflected, started from all ones |
| `Crc32.ChecksumBits` | Infrastructure/Common/Hashing.cs:11-16 | bit i of the checksum is the negation of bit i of the register, for every byte string |
| `Crc32.ResidueIsConstant` | Infrastructure/Common/Hashing.cs:11-16 | feeding a byte string followed by its own checksum, least significant byte first, leaves 0xDEBB20E3 in the register, whatever the string |
| `Crc32.KnownVector` | Tests/HashingTests.cs:7-7 | the checksum of the nine digits is 0xCBF43926, as the test of the repository expects, and that of the empty string is 0 |
| `Crc32.WindowChangesCrc` | Infrastructure/Common/Hashing.cs:11-16 | strings of equal length that differ only within four consecutive bytes have different checksums |
| `PacketCodec.Encode` | Infrastructure/Afs/Codecs/AfsPacketCodec.cs:17-29 | refused exactly above 1200 payload bytes; otherwise the buffer is the header, payload and checksum of the format |
| `PacketCodec.HeaderFields` | Infrastructure/Afs/Codecs/AfsPacketCodec.cs:21-26 | a 48-byte string is the header of a packet if and only if it has its fields at their places |
| `PacketCodec.DatagramParts` | Infrastructure/Afs/Codecs/AfsPacketCodec.cs:17-29 | every datagram is 48 bytes with the fields at their places, the payload, and the checksum of both in its last four bytes |
| `PacketCodec.DecodeInvertsEncode` | Infrastructure/Afs/Codecs/AfsPacketCodec.cs:17-43 | Decode(Encode(p)) = p for every packet of a defined kind; a packet of an undefined kind is encoded and then refused |
| `PacketCodec.AcceptedIsCanonical` | Infrastructure/Afs/Codecs/AfsPacketCodec.cs:31-43 | every accepted datagram is the encoding of the packet it decodes to |
| `PacketCodec.DecodeInjective` | Infrastructure/Afs/Codecs/AfsPacketCodec.cs:31-43 | two accepted datagrams with the same packet are the same bytes |
| `PacketCodec.WindowRejected` | Infrastructure/Afs/Codecs/AfsPacketCodec.cs:38-38 | changing at most four consecutive bytes of header and payload of an accepted datagram makes Decode refuse it |
| `PacketCodec.ChecksumChangeRejected` | Infrastructure/Afs/Codecs/AfsPacketCodec.cs:38-38 | changing only the checksum makes Decode refuse it |
| `PacketCodec.Deduplicator.TryAccept` | Infrastructure/Afs/Codecs/AfsPacketCodec.cs:47-53 | true exactly for the first packet of its (TestId, Kind, Sequence); the copy index plays no part |
| `FragmentCodec.Fragment` | Infrastructure/Afs/Codecs/AfsRawFragmentCodec.cs:20-40 | refused exactly for an empty record or more than 65535 fragments; otherwise the i-th block is that of the i-th fragment |
| `FragmentCodec.FragmentDecodes` | Infrastructure/Afs/Codecs/AfsRawFragmentCodec.cs:27-52 | DecodeBlock of a block of Fragment gives back that fragment |
| `FragmentCodec.DecodeBlockInvertsBlock` | Infrastructure/Afs/Codecs/AfsRawFragmentCodec.cs:42-52 | DecodeBlock inverts block building on every fragment it can return |
| `FragmentCodec.AcceptedBlock` | Infrastructure/Afs/Codecs/AfsRawFragmentCodec.cs:42-52 | every accepted block is, up to its padding, the block of the fragment it decodes to |
| `FragmentCodec.JoinedSlices` | Infrastructure/Afs/Codecs/AfsRawFragmentCodec.cs:29-37 | the slices of a record joined in order are the record |
| `FragmentCodec.SliceSizes` | Infrastructure/Afs/Codecs/AfsRawFragmentCodec.cs:27-37 | there are just enough fragments, all but the last carry 86 bytes, and fragment i begins at byte 86 i of the record |
| `FragmentCodec.FlagsMark` | Infrastructure/Afs/Codecs/AfsRawFragmentCodec.cs:31-31 | bit 0 marks the first fragment, bit 1 the last, and no other bit is set |
| `SubframeBits.ToSbBits` | Infrastructure/Afs/Codecs/AfsRawFragmentCodec.cs:54-61 | refused exactly for a wrong block length or type; otherwise six type bits and the block bits |
| `SubframeBits.FromSbBits` | Infrastructure/Afs/Codecs/AfsRawFragmentCodec.cs:63-71 | refused for a wrong length, an element above 1 or another type; otherwise the packed block |
| `SubframeBits.SbRoundTrip` | Infrastructure/Afs/Codecs/AfsRawFragmentCodec.cs:54-71 | a block comes back exactly when the expected type is the type it was sent with |
| `SubframeBits.SbCanonical` | Infrastructure/Afs/Codecs/AfsRawFragmentCodec.cs:63-71 | every accepted bit array is the one of the block it gives |
| `SubframeBits.SbBitAt` | Infrastructure/Afs/Codecs/AfsRawFragmentCodec.cs:54-61 | bit p below 6 is digit 5 - p of the type in base 2; bit 6 + p is bit p of the block |
| `SubframeBits.BitOfNumber` | Infrastructure/Afs/Codecs/AfsRawFragmentCodec.cs:58-58 | bit i of the k low bits of n is digit k - 1 - i of n in base 2 |
| `Reassembly.Reassembler.Add` | Infrastructure/Afs/Codecs/AfsRawFragmentCodec.cs:80-107 | the new dictionary and the outcome (added, conflict, index out of range), including that a new record state stays when adding to it throws |
| `Reassembly.AddedExactly` | Infrastructure/Afs/Codecs/AfsRawFragmentCodec.cs:80-107 | a fragment of a known record is added if and only if it states the same count, length and checksum and its slot is empty or holds its payload; of a new record, if and only if its index is below its count |
| `Reassembly.AddKeepsSlots` | Infrastructure/Afs/Codecs/AfsRawFragmentCodec.cs:101-107 | metadata and filled slots never change; an added fragment fills its own slot and no other; a refused one changes none |
| `Reassembly.Reassembler.CompleteRecords` | Infrastructure/Afs/Codecs/AfsRawFragmentCodec.cs:87-93 | the complete records in ascending order, or the exception of the first that fails its length or CRC test |
| `Reassembly.CompleteExactly` | Infrastructure/Afs/Codecs/AfsRawFragmentCodec.cs:87-115 | it returns if and only if every complete record has its stated length and checksum, and then gives exactly the complete ones, each as the join of its fragments |
| `Reassembly.LyingLengthThrows` | Infrastructure/Afs/Codecs/AfsRawFragmentCodec.cs:108-115 | a lone fragment that states another record length than it carries is taken, and CompleteRecords then throws |
| `Reassembly.Reassembler.IncompleteRecords` | Infrastructure/Afs/Codecs/AfsRawFragmentCodec.cs:95-95 | the keys of the incomplete records in ascending order |
| `AnyOrder.AddGenuine` | Infrastructure/Afs/Codecs/AfsRawFragmentCodec.cs:80-107 | a genuine fragment is always added and changes only its own slot |
| `AnyOrder.OrderAndRepeatsIrrelevant` | Infrastructure/Afs/Codecs/AfsRawFragmentCodec.cs:75-116 | after genuine fragments in any order with any repeats no call has thrown, and the state depends only on which fragments arrived |
| `AnyOrder.ReadsBackExactly` | Infrastructure/Afs/Codecs/AfsRawFragmentCodec.cs:87-116 | CompleteRecords gives exactly the records all of whose fragments arrived, ascending and with original contents; IncompleteRecords exactly the partly arrived ones |
| `CaptureFile.ReadRecords` | Infrastructure/Afs/Frames/AfsFrameService.cs:92-110 | the loop computes the records of the file, or fails on a short, empty or out-of-range record and on an empty file |
| `CaptureFile.WriteReconstructed` | Infrastructure/Afs/Results/AfsResultWriter.cs:35-41 | the file is the framing of the records in the given order |
| `CaptureFile.ReadInvertsWrite` | Infrastructure/Afs/Frames/AfsFrameService.cs:92-110 | reading the framing of any storable records gives them back |
| `CaptureFile.WriteInvertsRead` | Infrastructure/Afs/Frames/AfsFrameService.cs:92-110 | an accepted file is the framing of the records read from it |
| `CaptureFile.AcceptedIsCapture` | Infrastructure/Afs/Frames/AfsFrameService.cs:92-110 | the records of an accepted file are not none, and all can be fragmented |
| `FramePreparation.TimesAreConsecutive` | Infrastructure/Afs/Frames/AfsFrameService.cs:141-151 | frame n after a valid start has a valid time, n places later in a cycle of 65536 weeks |
| `FramePreparation.BlockIdsMembers` | Infrastructure/Afs/Frames/AfsFrameService.cs:33-35 | the block list holds every fragment of every record and nothing else |
| `FramePreparation.BlockIdsOrdered` | Infrastructure/Afs/Frames/AfsFrameService.cs:33-35 | the block list is in strict record and index order |
| `FramePreparation.FramesDisjoint` | Infrastructure/Afs/Frames/AfsFrameService.cs:41-48 | two different frames share no fragment |
| `FramePreparation.FramesCover` | Infrastructure/Afs/Frames/AfsFrameService.cs:41-48 | every fragment is in some frame |
| `FramePreparation.FramesInOrder` | Infrastructure/Afs/Frames/AfsFrameService.cs:41-48 | the frames carry the fragments in file order; only the last one repeats its fragment, and only when their number is odd |
| `FramePreparation.Prepare` | Infrastructure/Afs/Frames/AfsFrameService.cs:33-59 | the pairing loop: frame j carries fragments 2j and 2j+1 of the list (the last one twice when odd) and time j after the start; it fails exactly for an unfragmentable record or an invalid start |
| `FrameReceiver.Receiver.DecodeFrame` | Infrastructure/Afs/Frames/AfsFrameService.cs:169-196 | the new counters and dictionary for every decoder answer, and whether an exception escapes |
| `FrameReceiver.ReceiveKeepsShape` | Infrastructure/Afs/Frames/AfsFrameService.cs:169-196 | in every reachable dictionary the only exception that escapes is the codec argument check |
| `FrameReceiver.BlocksInTurn` | Infrastructure/Afs/Frames/AfsFrameService.cs:183-195 | the block of SB4 is looked at only when that of SB3 was added, and refusing it takes nothing back |
| `ReceiveLoop.ReceiveAll` | Infrastructure/Afs/Sessions/AfsReceiveSessionHandler.cs:36-115 | the while loop, with all its variables, computes the state machine run on the arriving datagrams |
| `ReceiveLoop.EveryRunIsSound` | Infrastructure/Afs/Sessions/AfsReceiveSessionHandler.cs:36-115 | for every sequence of datagrams the reached state is determined by positions alone: accepted keys, manifest in force, processed frames, end and failure |
| `ReceiveLoop.ProcessedExactly` | Infrastructure/Afs/Sessions/AfsReceiveSessionHandler.cs:45-110 | a datagram is processed if and only if it holds the first copy of a frame of the test whose manifest is in force, and the loop was not over |
| `ReceiveLoop.ProcessedAtMostOnce` | Infrastructure/Afs/Sessions/AfsReceiveSessionHandler.cs:45-110 | no two processed frames have the same key |
| `ReceiveLoop.EarlyCopyUsesUpKey` | Infrastructure/Afs/Sessions/AfsReceiveSessionHandler.cs:45-65 | a copy that arrives first, even if it is ignored, makes all later copies of its key unprocessed |
| `ReceiveLoop.EndedExactly` | Infrastructure/Afs/Sessions/AfsReceiveSessionHandler.cs:112-114 | the loop has ended if and only if a SessionEnd was accepted before anything ended or failed |
| `ReceiveLoop.FailedExactly` | Infrastructure/Afs/Sessions/AfsReceiveSessionHandler.cs:36-115 | the handler has thrown inside the loop if and only if a packet failed before an accepted end, and still waits if and only if neither has happened |
| `ReceiveLoop.SessionFrames` | Infrastructure/Afs/Sessions/AfsReceiveSessionHandler.cs:36-115 | in one session a frame is processed if and only if its first copy arrives after a SessionStart, before an accepted SessionEnd and before a processed frame that the codec argument check refuses |
| `ReceiveLoop.OvertakingEndHangs` | Infrastructure/Afs/Sessions/AfsReceiveSessionHandler.cs:45-65 | if the first SessionEnd overtakes every SessionStart, the loop never ends, whatever arrives |
| `ReceiveLoop.OvertakingEndRun` | Infrastructure/Afs/Sessions/AfsReceiveSessionHandler.cs:45-65 | the run SessionEnd, SessionStart, SessionEnd leaves the receiver waiting |
| `ReceiveLoop.EarlyFrameRun` | Infrastructure/Afs/Sessions/AfsReceiveSessionHandler.cs:45-65 | the run frame, SessionStart, frame processes nothing |
| `ReceiveLoop.EveryRunHolds` | Infrastructure/Afs/Sessions/AfsReceiveSessionHandler.cs:38-110 | in every run received = corrupt + time requests + duplicates + accepted, probes = probe responses, and the receiver, the kept frames and the sequence set are those of the processed frames |
| `ReceiveLoop.CountersMean` | Infrastructure/Afs/Sessions/AfsReceiveSessionHandler.cs:36-110 | in every run, over the datagrams taken: corrupt is the number of those that cannot be decoded, duplicates of those whose key came before, probes of the first probes of the test in force |
| `Delivery.ReceiveHonest` | Infrastructure/Afs/Frames/AfsFrameService.cs:183-195 | an honestly decoded frame adds exactly its two fragments, or counts as one corrupt frame |
| `Delivery.AfterFrames` | Infrastructure/Afs/Frames/AfsFrameService.cs:169-196 | after any honestly decoded frames in any order the receiver holds exactly the fragments of the delivered ones, and the corrupt count is the number of the others |
| `Delivery.ReceiverCounts` | Infrastructure/Afs/Frames/AfsFrameService.cs:169-196 | over any decodings, honest or not: each block counter is the number of frames with that flag, corrected is the sum of the corrections, and corrupt the number of frames with a bad block, a mismatch or a refused block |
| `Delivery.OnlyDeliveredMatter` | Infrastructure/Afs/Frames/AfsFrameService.cs:183-195 | the records held depend on the frames with both blocks valid alone |
| `Delivery.FullMeansEveryFrame` | Infrastructure/Afs/Frames/AfsFrameService.cs:41-54 | all fragments are held if and only if every frame was delivered |
| `Delivery.Conclude` | Infrastructure/Afs/Sessions/AfsReceiveSessionHandler.cs:122-143 | computes the integrity decision from the receiver, the manifest and the hash |
| `Delivery.SuccessMeans` | Infrastructure/Afs/Sessions/AfsReceiveSessionHandler.cs:122-143 | whatever was decoded: Success if and only if every held record is complete with its stated length and checksum, their number is that of the manifest, and the reconstructed file has its length and hash |
| `Delivery.SuccessExactlyWhenDelivered` | Infrastructure/Afs/Sessions/AfsReceiveSessionHandler.cs:122-143 | for every accepted capture file, any order, loss and repetition of frames and any hash function: nothing throws, Success if and only if every frame was delivered, and then the reconstructed bytes are the file |
| `Delivery.OtherTypeNeverSucceeds` | Infrastructure/Afs/Frames/AfsFrameService.cs:189-192 | a receiver set to a message type other than 63, which the sender always uses, takes nothing and never reports success |
| `Delivery.StateDelivers` | Infrastructure/Afs/Sessions/AfsReceiveSessionHandler.cs:122-143 | after any number of datagrams the integrity test on the receiver state would hold if and only if the first copy of every frame has arrived in time and decoded, and the reconstructed file would then be the capture file |
| `ReceiveLoop.SessionEnds` | Infrastructure/Afs/Sessions/AfsReceiveSessionHandler.cs:112-115 | in one session in which nothing fails the loop has ended if and only if a SessionEnd was accepted, and waits otherwise |
| `ReceiveSession.ReceiveAsync` | Infrastructure/Afs/Sessions/AfsReceiveSessionHandler.cs:15-200 | the whole routine: it waits, throws, or reports integrity and verdict, as defined on the run of the loop |
| `ReceiveSession.ReportsExactly` | Infrastructure/Afs/Sessions/AfsReceiveSessionHandler.cs:36-143 | for every run: it waits if and only if nothing ended or failed the loop; it reports if and only if a SessionEnd was accepted first, re-synchronisation returned and every complete record can be read back; else it throws |
| `ReceiveSession.ReportedSuccessMeans` | Infrastructure/Afs/Sessions/AfsReceiveSessionHandler.cs:122-143 | for every run that reports: success if and only if the records held are complete and checked, as many as the manifest in force says, and the written file has its length and hash |
| `ReceiveSession.SessionDelivers` | Infrastructure/Afs/Sessions/AfsReceiveSessionHandler.cs:36-143 | for every accepted capture file and every sequence of arriving datagrams of its session: the receiver reports if and only if a SessionEnd is accepted and waits otherwise; it reports success if and only if besides the first copy of every frame arrives in time and decodes; and the reconstructed file is then the capture file |
| `ReceiveSession.TestDPassesExactly` | Infrastructure/Afs/Sessions/AfsReceiveSessionHandler.cs:117-143 | for every sequence of arriving datagrams of a Test D session: the receiver waits until a SessionEnd is accepted, and reports that the test passed if and only if one was, the first copy of every frame came in time, nothing in the sent stream imitates the pattern, the codec decodes every undamaged frame, and CompleteRecords does not throw |
| `ReceiveSession.TestDPassesWhenRecovered` | Infrastructure/Afs/Evaluation/AfsTestEvaluator.cs:61-66 | with honest decodings the last condition always holds |
| `Delivery.UndamagedFrameDelivered` | Native/LnisAfsCodec/lnis_afs_codec.c:99-131 | an undamaged frame with recovering LDPC decoders is decoded to exactly the blocks that were sent |
| `ErrorInjection.Inject` | Infrastructure/Afs/Experiments/AfsErrorInjector.cs:13-28 | the exact error conditions of every mode, with and without the first 120 symbols; the result differs from the frame exactly at the chosen places |
| `ErrorInjection.TwiceRestores` | Infrastructure/Afs/Experiments/AfsErrorInjector.cs:26-26 | injecting the same errors twice restores the frame |
| `ErrorInjection.ErrorsStayInside` | Infrastructure/Afs/Experiments/AfsErrorInjector.cs:13-55 | unless the first 120 symbols are included, random and burst errors leave them alone; a burst is one run of consecutive symbols, and sync errors touch the 68 pattern symbols only |
| `Synchronizer.FindSyncOffsets` | Infrastructure/Afs/Synchronization/AfsFrameSynchronizer.cs:10-28 | refused exactly for a bad symbol count; otherwise exactly the ascending positions of the 68-symbol pattern |
| `Synchronizer.ExtractFrame` | Infrastructure/Afs/Synchronization/AfsFrameSynchronizer.cs:30-37 | refused exactly when fewer than 6000 symbols follow; otherwise those symbols as a frame |
| `Synchronizer.SyncAtBoundary` | Infrastructure/Afs/Synchronization/AfsFrameSynchronizer.cs:10-28 | in a stream of whole frames the pattern stands at boundary k exactly when frame k begins with it |
| `Synchronizer.CutAtBoundary` | Infrastructure/Afs/Synchronization/AfsFrameSynchronizer.cs:30-37 | extraction at boundary k gives frame k |
| `SyncRecovery.ApplyFrameErrors` | Infrastructure/Afs/Frames/AfsFrameService.cs:70-90 | the mode per test type and frame; Test D damages every interval-th frame but the last |
| `SyncRecovery.ErrorsByTest` | Infrastructure/Afs/Frames/AfsFrameService.cs:70-90 | what each of the five tests does to a frame, in terms of the symbols that change |
| `SyncRecovery.DamagedCount` | Infrastructure/Afs/Frames/AfsFrameService.cs:76-84 | the number of damaged frames of n is ceil((n-1)/interval) |
| `SyncRecovery.DamageFrames` | Infrastructure/Afs/Frames/AfsFrameService.cs:49-53 | the Test D frames go out with the pattern of exactly the due frames damaged, and the injected count is theirs |
| `SyncRecovery.DamageIsSeen` | Infrastructure/Afs/Experiments/AfsErrorInjector.cs:49-55 | one flipped pattern symbol is enough to lose the pattern |
| `SyncRecovery.BoundariesFound` | Infrastructure/Afs/Frames/AfsFrameService.cs:198-217 | in a Test D stream the pattern stands at boundary k if and only if frame k is undamaged, and the frame extracted there is the encoded frame |
| `SyncRecovery.RecoverSynchronized` | Infrastructure/Afs/Frames/AfsFrameService.cs:198-218 | the loop replays the frames at exactly the found offsets |
| `SyncRecovery.ThrowsExactly` | Infrastructure/Afs/Frames/AfsFrameService.cs:209-217 | for every stream: recovery returns if and only if every found offset that belongs to a kept frame leaves room for a frame and the codec accepts its arguments |
| `SyncRecovery.WholeFramesThrow` | Infrastructure/Afs/Frames/AfsFrameService.cs:209-217 | for whole frames: it returns if and only if no pattern stands past the start of the last frame and none in a frame whose interval is above 99 |
| `SyncRecovery.SpuriousPatternThrows` | Infrastructure/Afs/Frames/AfsFrameService.cs:209-217 | a concrete last frame for which it throws |
| `SyncRecovery.IntervalAbove99Throws` | Infrastructure/Afs/Codecs/AfsNativeCodec.cs:35-37 | one undamaged frame with interval 100 makes it throw |
| `SyncRecovery.BoundariesAmongFound` | Infrastructure/Afs/Frames/AfsFrameService.cs:204-208 | the boundaries of the frames that begin with the pattern are among the findings, and are all of them if and only if nothing imitates it |
| `SyncRecovery.SearchFindsBoundaries` | Infrastructure/Afs/Frames/AfsFrameService.cs:204-208 | without imitations of the pattern the search finds exactly the boundaries of the frames that begin with it |
| `SyncRecovery.TestDVerdict` | Infrastructure/Afs/Evaluation/AfsTestEvaluator.cs:61-66 | when all frames arrive the Test D counters agree with the manifest if and only if nothing in the stream imitates the pattern and the codec decodes every undamaged frame, and recovery has then not thrown |
| `SyncSession.KeptInOrder` | Infrastructure/Afs/Sessions/AfsReceiveSessionHandler.cs:119-120 | the kept frames come out with strictly increasing sequences, each exactly once |
| `SyncSession.LogOfSyncSession` | Infrastructure/Afs/Sessions/AfsReceiveSessionHandler.cs:97-103 | in a Test D session the processed frames are exactly the first copies in time, all kept for recovery |
| `SyncSession.CountersAgree` | Infrastructure/Afs/Evaluation/AfsTestEvaluator.cs:61-66 | after any number of datagrams of a Test D session the counters would agree with the manifest if and only if the first copy of every frame has arrived in time, nothing in the sent stream imitates the pattern, and the codec decodes every undamaged frame; recovery then returns |
| `SyncRecovery.EncodedBeginsWithPattern` | Native/LnisAfsCodec/lnis_afs_codec.c:68-79 | every encoded frame begins with the pattern |
| `SyncRecovery.NoPatternRefused` | Native/LnisAfsCodec/lnis_afs_codec.c:112-113 | the native decoder reports a pattern mismatch exactly for the frames that do not begin with it |
| `ClockOffset.NoWrap` | Infrastructure/Afs/Synchronization/AfsTimeSynchronizer.cs:45-47 | on dates the 64-bit sums do not wrap |
| `ClockOffset.SampleError` | Infrastructure/Afs/Synchronization/AfsTimeSynchronizer.cs:45-47 | twice the error of a sample is at most the difference of the two delays plus one tick |
| `ClockOffset.ClocksExchanged` | Infrastructure/Afs/Synchronization/AfsTimeSynchronizer.cs:45-47 | a sample is rounded toward zero: exchanging the two clocks changes its sign only |
| `ClockOffset.MedianIsNear` | Infrastructure/Afs/Synchronization/AfsTimeSynchronizer.cs:53-55 | if more than half of any list of samples is within eps of theta, so is the chosen element of the sorted list |
| `ClockOffset.HalfIsNotEnough` | Infrastructure/Afs/Synchronization/AfsTimeSynchronizer.cs:55-55 | with exactly half the chosen element can be outside |
| `ClockOffset.ReplyCarriesTimes` | Infrastructure/Afs/Synchronization/AfsTimeSynchronizer.cs:66-71 | the requester reads the times the responder wrote |
| `ClockOffset.ReplyFields` | Infrastructure/Afs/Synchronization/AfsTimeSynchronizer.cs:67-71 | bytes 0, 8 and 16 of the reply hold the three times, big-endian in two complement |
| `ClockOffset.SamplesExact` | Infrastructure/Afs/Synchronization/AfsTimeSynchronizer.cs:41-48 | the samples are those of exactly the rounds answered by a response of the same sequence with 24 bytes |
| `ClockOffset.Synchronize` | Infrastructure/Afs/Synchronization/AfsTimeSynchronizer.cs:17-55 | eight rounds: 0 without samples, otherwise the middle of the sorted samples of the matching replies, and within eps of theta when most are; an undecodable datagram escapes |
| `Sender.PlannedDrops` | Infrastructure/Afs/Sessions/AfsSendSessionHandler.cs:37-44 | the number of (frame, copy) pairs the drop rule names |
| `Sender.SendFrameCopies` | Infrastructure/Afs/Transport/AfsUdpTransport.cs:52-75 | the datagrams are, in order, the encodings of the copies not dropped, each stamped with the time it was sent, and sent is their number; a copy index above 255 that is not dropped overflows |
| `Sender.CopiesShareTheKey` | Infrastructure/Afs/Transport/AfsUdpTransport.cs:66-72 | every datagram of a frame decodes to the key and payload of the frame |
| `Sender.SendFrames` | Infrastructure/Afs/Sessions/AfsSendSessionHandler.cs:106-152 | the frame datagrams on the wire are exactly the copies that are not dropped, frame by frame and copy by copy; their number is what is returned, and with the planned drops makes frames x copies; the probes are numbered 1, 2, ... as they fall due; nothing else is there; it fails exactly when a copy index above 255 is not dropped or a probe needs one |
| `Sender.DueExact` | Infrastructure/Afs/Sessions/AfsSendSessionHandler.cs:106-125 | the list of due copies holds exactly the (frame, copy) pairs not dropped, each once, in frame and copy order |
| `Sender.OnWireExactly` | Infrastructure/Afs/Sessions/AfsSendSessionHandler.cs:106-125 | copy c of frame k is on such a wire if and only if it is not dropped |
| `Sender.SendCopies` | Infrastructure/Afs/Transport/AfsUdpTransport.cs:33-50 | datagram c decodes to the packet with copy index c, its time renewed only for frames; fails exactly above 256 copies |
| `Sender.SendSession` | Infrastructure/Afs/Sessions/AfsSendSessionHandler.cs:68-169 | copies of SessionStart, then probes and frames, then copies of SessionEnd: the frame datagrams are exactly the copies not dropped, in order, and their number is what is returned; the probes are numbered from 0; it fails exactly above 256 copies |
| `Sb2Pattern.BuildValidationPattern` | Infrastructure/Afs/Codecs/AfsSb2Builder.cs:7-20 | refused exactly for an interval of 504 or more; otherwise 1176 bits: week, interval, and the noise of the generator behind them |
| `Sb2Pattern.FieldsReadBack` | Infrastructure/Afs/Codecs/AfsSb2Builder.cs:17-25 | a week below 8192 and an interval below 512 can be read back from the pattern |
| `Sb2Pattern.KnownTurns` | Infrastructure/Afs/Codecs/AfsSb2Builder.cs:14-15 | the generator takes 1 to 270369 and that to 67634689, as the published xorshift with shifts 13, 17 and 5 does, and the noise is the lowest bit |
| `Sb2Pattern.KnownSeeds` | Infrastructure/Afs/Codecs/AfsSb2Builder.cs:11-11 | the seed of week 0, interval 0 is the constant; the week enters nine places above the interval |
| `EndToEnd.PreparePackets` | Infrastructure/Afs/Frames/AfsFrameService.cs:33-59 | records, times, codec and packets together: it fails exactly for an unfragmentable record or an invalid start, and otherwise gives exactly the packets WireDelivers is about |
| `EndToEnd.SentFrameDelivered` | Native/LnisAfsCodec/lnis_afs_codec.c:99-131 | the native codec answers every sent frame with the blocks that were sent |
| `EndToEnd.WireDelivers` | Infrastructure/Afs/Sessions/AfsReceiveSessionHandler.cs:36-143 | for every accepted capture file and whatever the network makes of the sender own datagrams (order, loss, repetition): the receiver reports if and only if a SessionEnd is accepted and waits otherwise; it reports success if and only if besides the first copy of every frame arrives after a SessionStart and before an accepted SessionEnd; and the reconstructed file is then the capture file |
| `EndToEnd.SessionsExist` | Infrastructure/Afs/Sessions/AfsReceiveSessionHandler.cs:36-143 | for every short record, test id, start time and hash there is such a session |
| `EndToEnd.DirectDelivery` | Infrastructure/Afs/Sessions/AfsSendSessionHandler.cs:68-169 | a session wire with copies of which at least one per frame is not dropped, delivered as it was sent, meets the arrival condition of WireDelivers for every frame |
| `EndToEnd.UndisturbedSessionSucceeds` | Infrastructure/Afs/Sessions/AfsReceiveSessionHandler.cs:36-143 | such a session ends in a report of success, and the reconstructed file is the capture file |
| `RecordPayloads.ObservationRoundTrip` | Infrastructure/Gnss/Capture/GnssRawBinaryCodec.cs:54-84 | reading and writing one observation are inverse to each other, both ways |
| `RecordPayloads.ObservationsAt` | Infrastructure/Gnss/Capture/GnssRawBinaryCodec.cs:54-54 | observation i lies at byte 31 i of the list |
| `RecordPayloads.WordsAt` | Infrastructure/Gnss/Capture/GnssRawBinaryCodec.cs:57-57 | word i lies at byte 4 i of the list |
| `RecordPayloads.MetadataFields` | Infrastructure/Gnss/Capture/GnssRawBinaryCodec.cs:59-61 | a string is the payload of a metadata message if and only if model, firmware, port, baud rate and session name lie in it in this order, each text behind its length |
| `RecordPayloads.TypeCodes` | Infrastructure/Gnss/Capture/GnssRawBinaryCodec.cs:67-79 | the three kinds have the types 1, 2 and 3, and a payload is read as the kind of its type |
| `RecordPayloads.ReadInvertsWrite` | Infrastructure/Gnss/Capture/GnssRawBinaryCodec.cs:47-91 | reading back every writable message of the three kinds gives the message |
| `RecordPayloads.WriteInvertsRead` | Infrastructure/Gnss/Capture/GnssRawBinaryCodec.cs:67-91 | every accepted observation or navigation payload is what its message is written as; a metadata payload if and only if its texts re-encode to themselves |
| `RecordCodec.ReadObservations` | Infrastructure/Gnss/Capture/GnssRawBinaryCodec.cs:83-84 | the loop takes count observations from the stream, or fails when it is too short |
| `RecordCodec.ReadWords` | Infrastructure/Gnss/Capture/GnssRawBinaryCodec.cs:87-87 | the loop takes count words, or fails when the stream is too short |
| `RecordCodec.EncodeMessage` | Infrastructure/Gnss/Capture/GnssRawBinaryCodec.cs:47-65 | fails exactly when a count or text length exceeds a ushort; otherwise the payload bytes |
| `RecordCodec.EncodeRecord` | Infrastructure/Gnss/Capture/GnssRawBinaryCodec.cs:15-30 | the written buffer is the record of the format; fails exactly for another version, an unwritable or a too large message |
| `RecordCodec.RecordParts` | Infrastructure/Gnss/Capture/GnssRawBinaryCodec.cs:15-30 | every record is 62 bytes with the fields at their places, the payload, and the checksum of both in its last four bytes |
| `RecordCodec.DecodeInvertsEncode` | Infrastructure/Gnss/Capture/GnssRawBinaryCodec.cs:15-45 | Decode(Encode(e)) is e with its time truncated to microseconds, for all three kinds |
| `RecordCodec.TruncationIsSmall` | Infrastructure/Gnss/Capture/GnssRawBinaryCodec.cs:26-26 | truncation goes toward the epoch by less than a microsecond and does nothing to whole microseconds |
| `RecordCodec.EncodeInvertsDecode` | Infrastructure/Gnss/Capture/GnssRawBinaryCodec.cs:32-45 | every accepted observation or navigation record re-encodes to itself; a metadata record if and only if its texts do |
| `RecordCodec.EncodedFits` | Infrastructure/Gnss/Capture/GnssRawBinaryCodec.cs:19-20 | every encoded record has 66 to 1048642 bytes, the limit of the stream adapter and below that of the file reader |
| `RecordCodec.RecordWindowRejected` | Infrastructure/Gnss/Capture/GnssRawBinaryCodec.cs:40-40 | a change of at most four consecutive bytes before the checksum is refused |
| `StreamAdapter.ParseConcat` | Infrastructure/Gnss/Protocols/GnssProtocolAdapters.cs:32-55 | parsing a + b is parsing a, then its rest followed by b; an exception in a stays |
| `StreamAdapter.ChunkIndependence` | Infrastructure/Gnss/Protocols/GnssProtocolAdapters.cs:32-55 | for every split of a stream into Push calls: some call throws if and only if one Push of the whole throws; otherwise messages and pending are the same, and pending never holds a complete record |
| `StreamAdapter.ThrowsForEver` | Infrastructure/Gnss/Protocols/GnssProtocolAdapters.cs:34-49 | after an exception every further Push throws, since the bytes stay pending |
| `StreamAdapter.WrittenStreamParses` | Infrastructure/Gnss/Protocols/GnssProtocolAdapters.cs:44-51 | a stream of encoded records is parsed into exactly their messages with nothing left over |
| `StreamAdapter.ParseOf` | Infrastructure/Gnss/Protocols/GnssProtocolAdapters.cs:36-53 | good records, framed, followed by a tail: exactly their messages with the tail pending if it waits for bytes; an exception if it has a length outside 1 to 1048642 or an undecodable record |
| `StreamAdapter.StreamSplits` | Infrastructure/Gnss/Protocols/GnssProtocolAdapters.cs:36-53 | every byte string is such records followed by a tail of exactly one of the two kinds |
| `StreamAdapter.Adapter.Reset` | Infrastructure/Gnss/Protocols/GnssProtocolAdapters.cs:57-57 | nothing is pending afterwards |
| `StreamAdapter.Adapter.Push` | Infrastructure/Gnss/Protocols/GnssProtocolAdapters.cs:32-55 | the loop computes messages and pending of the one-shot parse of pending + bytes; a throwing call keeps all bytes |

## Left out

- The PocketSDR LDPC decoders (`sdr_decode_LDPC_*`) are not modelled: they are arbitrary functions, and the theorems that need a correct one say so.
- The literal entries of the A, C and D tables: they are arbitrary matrices of the right size. B and B_Inv are given in closed form as blocks of cyclic shifts (the shift 87 of the SF3 inverse is written -1).
- The abandon options of `mod2sparse_decomp`, block addresses and the freeing of memory: of the free list only the length is modelled, an entry is a new object, and its row and column never change. Wrong dimensions, which make the C code exit, are preconditions.
- `mod2sparse_copyrows`, `copycols`, `transpose`, `equal`, `add`, `add_col`, file reading and printing: not used on the encoding path, and easier relatives of what is modelled.
- SparseOps.Multiply: asks for a result matrix with an empty free list, because the source's clearing leaves `next_free` pointing into freed blocks otherwise; what the C code does then is not modelled.
- LuDecomposition.Copy: asks for an empty free list of the target, for the same reason.
- LuDecomposition.Decomp: asks for empty free lists of L and U, for the same reason; the abandon options are left out.
- LuSolve.Solve: asks for empty free lists of L and U, for the same reason.
- LdpcEncoder.Build: the static matrix pointers of `afs_nav.c` are passed explicitly as caches.
- Crc24q.AppendCrc24: the loop of `sdr_unpack_data` for the 24 checksum bits is written out as an expression over the three bytes of the word.
- FrameCodec.EncodeFrame: null pointers and the `last_error` text are not modelled; the log helpers of `afs_nav.c` are left out.
- FrameCodec.DecodeFrame: null pointers and the `last_error` text are not modelled.
- FrameCodec.Sf1Injective: subframe 1 is modelled as a function (the LFSR and the bit reversal), not as loops over a register; its frame id is always 0 here.
- FragmentCodec.Fragment: the fragment count, computed in double precision in the source, is integer division here, which agrees for every Int32 length.
- RecordPayloads.ObservationRoundTrip: floating-point fields stand as their bit patterns, signed bytes and enums as their byte.
- RecordPayloads.ReadInvertsWrite: text is an abstract UTF-8 pair; for metadata the strings must survive the encoding, which lone surrogates do not.
- Reassembly.Reassembler.Add: the fragment array of a record is a value inside the dictionary; aliasing of payload arrays is not captured.
- FramePreparation.Prepare: stops before the codec call, which EndToEnd.PreparePackets adds; the start time (`TimeFrom`, `NextTime`, which use doubles) is a parameter, and the progress reports are left out. Fewer than 2^31 records is the capacity of a .NET list.
- ReceiveLoop.ReceiveAll: latencies, the sender address, the end grace delay, cancellation and progress are left out; a run is any finite sequence of arriving datagrams.
- ReceiveSession.ReceiveAsync: metrics, counters of the result, result files and the result packet are left out; the report is integrity and verdict.
- ReceiveLoop.SessionFrames: one session means that every SessionStart carries a readable manifest of one test; ProcessedExactly covers several.
- ReceiveSession.SessionDelivers: covers all tests but Test D, whose frames are replayed after the loop; ReceiveSession.TestDPassesExactly covers that one. It assumes that a block flagged valid is the block that was sent, which a 24-bit checksum alone does not guarantee; FrameCodec.MisdecodeCaught says what the checksum does rule out, and EndToEnd.WireDelivers proves the assumption for undamaged frames.
- EndToEnd.WireDelivers: is about frames without injected errors; it assumes that the LDPC decoders return the systematic bits of the sent blocks and that the manifest survives its JSON text.
- ErrorInjection.Inject: random number generation and the sampling loops are left out: the chosen places are handed in, increasing and in range.
- Sender.SendFrames: the stopwatch is a predicate that says after which frames a probe is due; the drop rule is an arbitrary function of frame and copy.
- Sender.SendSession: the frame packets are those EndToEnd.PreparePackets builds, the JSON payload of SessionStart is any one the receiver reads back; the wait for the result is left out.
- ClockOffset.Synchronize: List.Sort is modelled by an insertion sort; timeouts are silent rounds.
- SHA-256, JSON, file and socket I/O, P/Invoke, the resource sampler, result files, metrics and thresholds, the windows and view models, COM port access, `afs_sim.c`, `afs_rand.c` and the scripts.
