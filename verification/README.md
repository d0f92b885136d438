# ZCZ and Deoxys-BC in Dafny

This project is a model of the ZCZ tweakable wide-block cipher and the parts it is built from. The model is stated as Dafny functions, methods and lemmas, following the C implementation of the medsec/zcz repository:

- **ZCZ, reference build** (`ref/zcz.c`). Covers:
  - the length predicates and the chunking;
  - the 32-byte tweak of the primitive;
  - the top, middle and bottom layers with their polynomial hashes;
  - the last di-block steps and the basic scheme;
  - the partial-block path with its padding;
  - the public API, which rejects messages shorter than one di-block.

  It is proved to decrypt what it encrypts, for every length it accepts, over any tweakable cipher that inverts itself (module `Zcz`). It is also instantiated with Deoxys-BC (module `ZczDeoxys`).
- **ZCZ, optimised build** (`opt/zcz.c`). Covers:
  - the layers as sweeps of eight di-blocks per 8-way call while eight remain, then one at a time;
  - hash registers advanced by the 8-way Horner steps;
  - the per-chunk middle layer, batched when encrypting and scalar when decrypting;
  - the basic and partial paths and the API.

  Module `ZczOpt` models the lane counters of the 8-way calls in two ways: as written, and with full counters. It proves the optimised build equal to the reference one whenever the two agree on every counter. This holds for up to 256 full di-blocks, and for every length with full counters.
- **The Deoxys-BC tweakey schedule** (`ref/deoxysbc.c`, `opt/deoxysbc.c`). Covers:
  - the H permutation and its inverse;
  - the LFSRs and the round constants;
  - the key and tweak loops of the three variants;
  - the decryption keys under InvMixColumns;
  - the shuffle tables, the lane-wise LFSR macros, the counter lanes and the base counters of the optimised build.

  The optimised Deoxys-BC-128-384 is proved to compute the reference cipher in both directions (modules `Deoxys`, `DeoxysOpt`). The AES round functions are parameters, constrained only by the inverse identities of FIPS 197.
- **Doubling in GF(2^128)** (`shared/utils.c`, `opt/gfmul.h`, `opt/gfmul.c`). Covers:
  - `gf_double` and `gf_times_four` on byte strings;
  - the `gf_2_128_double` and `gf_2_128_times_four` macros on 128-bit registers;
  - the 8-way Horner steps `gf_2_128_double_eight` and `gf_2_128_times_four_eight`, with their lane shifts, carry-less fold by x^7 + x^2 + x + 1 and balanced accumulation.

  All of these are proved to be multiplications by x, x^2 and eight Horner steps (modules `Gf`, `Register`, `Gf128`, `GfOpt`).
- **Byte utilities** (`shared/utils.c`, `opt/utils-opt.c`). Covers:
  - the little- and big-endian encoders;
  - the bytewise logic with in-place aliasing;
  - `compare`, `zeroize` and `revert_bytes`;
  - `load_partial` and `store_partial` (modules `Bytes`, `Partial`).
- **The hex helpers of the test-vector reader** (`shared/json_parser.cpp`). Covers `to_byte_array` with `strtol` in base 16, `to_uint8_t` and `to_uint64_t` (module `JsonParser`).
- **The line classifier of the plotting script** (`scripts/plot.py`). Covers `get_tuple` and `read` (module `Plot`).

Routines that write into a caller's buffer take the old contents of the buffer and return the new contents. "Nothing else changes" is therefore a statement about the returned sequence. The shared `Option` type lives in module `Wrappers`.

## Model

| member | source | states |
|---|---|---|
| Bytes.LeRoundTrip | shared/utils.c:79-86 | the little-endian encoding is a bijection between 64-bit words and 8-byte strings, in both directions and as an if-and-only-if |
| Bytes.BeIsReversedLe | shared/utils.c:102-107 | the big-endian bytes of a word are its little-endian bytes in reverse order |
| Bytes.ShiftLe | shared/utils.c:79-86 | shifting a word right by eight drops the first little-endian byte and appends a zero |
| Bytes.ToLeArray | shared/utils.c:79-86 | to_le_array writes the word's little-endian encoding into the first 8 bytes and leaves the rest of the target unchanged |
| Bytes.ManyToArray | shared/utils.c:90-119 | many_to_le_array / many_to_be_array put word k at bytes 8k..8k+7 in the chosen byte order and leave bytes from 8·numWords on unchanged |
| Bytes.ToArrayPartial | shared/utils.c:123-140 | to_array_partial writes the first numBytes bytes of the big-endian stream of the words and nothing after them |
| Bytes.ToLeXor | shared/utils.c:79-86 | encoding commutes with XOR: the bytes of a ^ b are the bytewise XOR of the bytes of a and b |
| Bytes.XorCancel | shared/utils.c:258-265 | bytewise XOR with the same mask twice restores the input, XOR commutes and x ^ x is all zeros |
| Bytes.XorAssoc | shared/utils.c:258-265 | bytewise XOR is associative |
| Bytes.BytewiseInPlace | shared/utils.c:236-265 | vand / vor / vxor with the output aliasing the first input give the bytewise combination of the first n bytes and keep every later byte |
| Bytes.ZipXorIsXor | shared/utils.c:258-265 | the in-place XOR loop computes the bytewise XOR of the two buffers |
| Bytes.Zeroize | shared/utils.c:269-271 | byte i becomes 0 for i < n and keeps its value otherwise |
| Bytes.Compare | shared/utils.c:146-156 | the OR of the XORs of the first n byte pairs is 0 exactly when the two ranges are equal, in both directions |
| Bytes.RevertBytes | shared/utils.c:275-283 | the loop as written swaps every pair twice and returns its input unchanged |
| Bytes.RevertBytesIsNotReversal | shared/utils.c:275-283 | the unchanged input differs from the reversal whenever the first and last bytes differ |
| Bytes.RevertBytesCorrected | shared/utils.c:275-283 | swapping only the first half against the second returns the reversal of the input |
| Bytes.ReverseInvolutive | shared/utils.c:275-283 | reversing twice gives the input back, so the corrected routine undoes itself |
| Bytes.ToLe | shared/utils.c:79-86 | to_le_array: the contract gives 8 bytes; their values are pinned by Bytes.LeRoundTrip (ToLe is injective and inverted by FromLe) and Bytes.ToLeXor |
| Bytes.ToBe | shared/utils.c:102-107 | to_be_array: the contract gives 8 bytes; Bytes.BeIsReversedLe pins them as the reversed little-endian bytes and JsonParser.BeRoundTrip as the inverse of FromBe |
| Bytes.Xor | shared/utils.c:258-265 | vxor on equal-length strings: the result has their length and byte i is a[i] XOR b[i]; Bytes.XorCancel and Bytes.XorAssoc give the group laws |
| Bytes.Zip | shared/utils.c:236-265 | the bytewise loop shared by vand, vor and vxor: the contract gives the common length; Bytes.BytewiseInPlace pins the bytes, also when the output aliases an input |
| Register.VXor | opt/utils-opt.h:81 | vxor sets bit i exactly when the bits of the two registers differ |
| Register.VAnd | opt/utils-opt.h:78 | vand sets bit i exactly when both registers have it set |
| Register.LoadStore | opt/utils-opt.h:46-48 | loadu and storeu are mutually inverse between 16-byte blocks and registers |
| Gf.TimesFourIsDoubleTwice | shared/utils.c:160-211 | gf_times_four equals gf_double applied twice, on every length of at least two bytes |
| Gf.DoubleXor | shared/utils.c:160-173 | gf_double distributes over bytewise XOR |
| Gf.Double | shared/utils.c:160-173 | gf_double: the contract keeps the length; Gf128.GfDoubleIsDouble pins the value as multiplication by x in GF(2^128) and Gf.DoubleXor as linear |
| Gf.TimesFour | shared/utils.c:194-211 | gf_times_four: the contract keeps the length; Gf.TimesFourIsDoubleTwice pins the value as two doublings |
| Gf128.GfDoubleIsDouble | shared/utils.c:160-173 | gf_double on a 16-byte block, once loaded, is multiplication by x in GF(2^128) modulo x^128 + x^7 + x^2 + x + 1 |
| Gf128.DoublePowShifted | opt/gfmul.c:55-94 | k doublings, for k up to 16, equal the closed form that shifts by k and folds the top k bits back through the reduction polynomial |
| Gf128.DoublePowXor | opt/gfmul.c:55-94 | k doublings distribute over XOR |
| Gf128.DoublePowAdd | opt/gfmul.c:55-94 | j doublings followed by k doublings are j + k doublings |
| GfOpt.ReductionPolynomialBits | opt/gfmul.h:41 | REDUCTION_POLYNOMIAL has exactly the bits 0, 1, 2 and 7 of x^7 + x^2 + x + 1 set |
| GfOpt.DoubleMacroIsDouble | opt/gfmul.h:45-51 | the gf_2_128_double macro leaves 2x in its output register |
| GfOpt.TimesFourMacroIsTimesFour | opt/gfmul.h:55-58 | the gf_2_128_times_four macro leaves x^2 times its input in its output register |
| GfOpt.MacroClobbersX | opt/gfmul.h:45-51 | some input register is overwritten with a value other than 2x, which is why callers pass the same variable twice |
| GfOpt.ClMulPoly | opt/gfmul.c:75 | the carry-less multiply by REDUCTION_POLYNOMIAL with selector 0x01 folds the high lane through x^7 + x^2 + x + 1 |
| GfOpt.TermIsPower | opt/gfmul.c:55-94 | shifting a term within its 64-bit lanes, carrying across the lane boundary and folding once multiplies it by x^k, for k up to 16 |
| GfOpt.AccumulateXor | opt/gfmul.c:43-51 | two balanced accumulations XORed together are the accumulation of the pointwise XORs |
| GfOpt.EightIsPowers | opt/gfmul.c:55-137 | an eight-way step is the XOR of term j multiplied by x^(s(8-j)), plus the last value |
| GfOpt.HornerClosed | opt/gfmul.c:55-137 | n Horner steps with a linear f apply f n times to the hash and n - 1 - i times to value i |
| GfOpt.DoubleEightIsHorner | opt/gfmul.c:55-94 | gf_2_128_double_eight equals eight doubling Horner steps over its eight inputs |
| GfOpt.TimesFourEightIsHorner | opt/gfmul.c:98-137 | gf_2_128_times_four_eight equals eight times-four Horner steps over its eight inputs |
| GfOpt.ReductionPolynomial | opt/gfmul.h:41 | no contract; pinned by GfOpt.ReductionPolynomialBits |
| GfOpt.DoubleMacro | opt/gfmul.h:45-51 | no contract; pinned by GfOpt.DoubleMacroIsDouble and GfOpt.MacroClobbersX |
| GfOpt.TimesFourMacro | opt/gfmul.h:55-58 | no contract; pinned by GfOpt.TimesFourMacroIsTimesFour |
| GfOpt.Accumulate8 | opt/gfmul.c:43-51 | no contract; pinned by GfOpt.AccumulateXor |
| GfOpt.DoubleEight | opt/gfmul.c:55-94 | no contract; pinned by GfOpt.DoubleEightIsHorner |
| GfOpt.TimesFourEight | opt/gfmul.c:98-137 | no contract; pinned by GfOpt.TimesFourEightIsHorner |
| Partial.LoadPartial | opt/utils-opt.c:43-58 | n = 0 loads zero; a nonzero multiple of 16 loads the first 16 bytes; for 0 < n < 16 the first n bytes are loaded and the rest of the register holds whatever the temporary held; n > 16 not a multiple of 16 is outside the contract (see "## Left out") |
| Partial.StorePartial | opt/utils-opt.c:62-76 | n = 0 writes nothing; n >= 16 writes 16 bytes; otherwise the first n bytes of the register are written; every other byte keeps its value |
| Partial.PartialCopy | opt/utils-opt.c:43-76 | a partial load followed by a partial store of the same length copies exactly the first n bytes, whatever the uninitialised bytes were |
| Deoxys.HIsPermutation | ref/deoxysbc.c:43-45 | H_PERMUTATION is a one-to-one map of 0..15 onto itself and HInverse undoes it on both sides |
| Deoxys.PermuteTweakInverse | ref/deoxysbc.c:66-80 | permute_tweak only reorders the bytes, and permuting by the inverse map restores the block on both sides |
| Deoxys.PermuteXor | ref/deoxysbc.c:66-74 | permuting distributes over XOR |
| Deoxys.LfsrByteInverse | ref/deoxysbc.c:84-92 | lfsr_two_byte and lfsr_three_byte are inverse to each other on every byte |
| Deoxys.LfsrInverse | ref/deoxysbc.c:96-108 | lfsr_two and lfsr_three are inverse to each other on every block |
| Deoxys.LfsrPermute | ref/deoxysbc.c:66-108 | being bytewise, the LFSRs commute with every byte permutation |
| Deoxys.Lfsr2Xor | ref/deoxysbc.c:96-100 | lfsr_two distributes over XOR |
| Deoxys.AddRoundConstants | ref/deoxysbc.c:112-123 | round keys 0..num_rounds get the constants 1, 2, 4, 8 in bytes 0..3 and RCON[i] in bytes 4..7; bytes 8..15 and any later key are unchanged |
| Deoxys.ExpandKey | ref/deoxysbc.c:152-272 | the key chain of setup_key: subkey j is the key's tweakey word j of the variant |
| Deoxys.XorTweak256 | ref/deoxysbc.c:179-215 | the 128-256 tweak loop XORs H^j of the tweak into round key j |
| Deoxys.XorTweak384 | ref/deoxysbc.c:219-272 | the 128-384 tweak loop XORs H^j of TK1 and the LFSR-and-H sequence of TK2 into round key j |
| Deoxys.SetupKey | ref/deoxysbc.c:152-272 | the three setup_key routines, loop by loop, produce the closed round-tweakey schedule of their variant |
| Deoxys.DecRoundOfEncRound | ref/deoxysbc.c:357-448 | one decryption round with an InvMixColumns key undoes one encryption round |
| Deoxys.CipherRoundTrip | ref/deoxysbc.c:127-146 | decryption with the keys of setup_decryption_key (same order, InvMixColumns on all but the last) inverts encryption for every number of rounds |
| Deoxys.EncryptDecrypt | ref/deoxysbc.c:276-448 | every variant decrypts what it encrypts under the same key and tweak |
| Deoxys.HPermutation | ref/deoxysbc.c:43-45 | H_PERMUTATION: the contract gives 16 entries; Deoxys.HIsPermutation pins it as a permutation of 0 .. 15 |
| Deoxys.Permute | ref/deoxysbc.c:66-74 | no contract; pinned by Deoxys.PermuteXor and DeoxysOpt.HTableIsPow |
| Deoxys.PermuteTweak | ref/deoxysbc.c:78-80 | no contract; pinned by Deoxys.PermuteTweakInverse |
| Deoxys.Lfsr2Byte | ref/deoxysbc.c:84-86 | no contract; pinned by Deoxys.LfsrByteInverse |
| Deoxys.Lfsr3Byte | ref/deoxysbc.c:90-92 | no contract; pinned by Deoxys.LfsrByteInverse |
| Deoxys.Lfsr2 | ref/deoxysbc.c:96-100 | no contract; pinned by Deoxys.LfsrInverse, Deoxys.Lfsr2Xor and Deoxys.LfsrPermute |
| Deoxys.Lfsr3 | ref/deoxysbc.c:104-108 | no contract; pinned by Deoxys.LfsrInverse and Deoxys.LfsrPermute |
| Deoxys.Rcon | ref/deoxysbc.c:46-50 | RCON: the contract gives 17 constants; Deoxys.AddRoundConstants places them in the round keys |
| Deoxys.RoundTweakeys | ref/deoxysbc.c:152-272 | the round tweakeys of the three setup routines: the contract gives NumRounds + 1 of them; Deoxys.SetupKey pins each as the XOR of its key and tweak parts |
| Deoxys.Cipher | ref/deoxysbc.c:276-353 | no contract; pinned by Deoxys.CipherRoundTrip |
| Deoxys.DecryptionKeys | ref/deoxysbc.c:127-146 | setup_decryption_key: the contract keeps the number of keys; Deoxys.CipherRoundTrip pins them as the keys under which InvCipher inverts Cipher |
| Deoxys.InvCipher | ref/deoxysbc.c:357-448 | no contract; pinned by Deoxys.CipherRoundTrip and Deoxys.DecRoundOfEncRound |
| Deoxys.Encrypt | ref/deoxysbc.c:276-353 | no contract; pinned by Deoxys.EncryptDecrypt and DeoxysOpt.BlockEncryptIsRef |
| Deoxys.Decrypt | ref/deoxysbc.c:357-448 | no contract; pinned by Deoxys.EncryptDecrypt and DeoxysOpt.BlockDecryptIsRef |
| DeoxysOpt.HTableIsPow | opt/deoxysbc.c:51-74 | the shuffle mask H_PERMUTATION_k permutes like k applications of permute_tweak |
| DeoxysOpt.HalfSwap | opt/deoxysbc.c:51-74 | H^4 swaps the two 8-byte halves of the block |
| DeoxysOpt.PermutePowEight | opt/deoxysbc.c:51-74 | H^8 is the identity |
| DeoxysOpt.PermutePowPeriod | opt/deoxysbc.c:51-74 | the powers of H repeat with period 8, so tables 1..7 serve rounds 9..15 as well |
| DeoxysOpt.Lfsr3MacroIsLfsr3 | opt/deoxysbc.c:169-172 | the lane-wise lfsr_three macro is the reference lfsr_three |
| DeoxysOpt.Lfsr2GenericIsPow | opt/deoxysbc.c:155-159 | lfsr_two_generic with shift r is r applications of lfsr_two, for r = 1..6 |
| DeoxysOpt.Lfsr2MacroIsLfsr2 | opt/deoxysbc.c:163-165 | the lfsr_two macro is the reference lfsr_two |
| DeoxysOpt.CounterLaneIsPow | opt/deoxysbc.c:811-836 | the computed counter lane shifted by 8 - r holds r applications of lfsr_two_byte to the counter byte, for r = 1..8 |
| DeoxysOpt.SetupKey | opt/deoxysbc.c:955-966 | the optimised key setup yields, for each of the 17 rounds, the reference key word XOR the round constant |
| DeoxysOpt.OptTk2IsTk2 | opt/deoxysbc.c:983-1000 | applying lfsr_two after H gives the reference TK2 sequence of the round |
| DeoxysOpt.SetupTweak | opt/deoxysbc.c:983-1000 | setup_tweak yields the 17 round tweaks of the reference schedule for the domain, counter and tweak block |
| DeoxysOpt.OptEncStateIsEncState | opt/deoxysbc.c:1098-1109 | rounds with keys and tweaks XORed on the fly are the reference rounds under the combined schedule |
| DeoxysOpt.LastRoundEquivalence | opt/deoxysbc.c:1350-1366 | one vaesdeclast with key 0 equals a full decryption round under InvMixColumns of key 0 followed by MixColumns |
| DeoxysOpt.OptDecryptIsInvCipher | opt/deoxysbc.c:1350-1366 | decryption with InvMixColumns on the inner keys and tweaks computes the reference inverse cipher of the combined schedule |
| DeoxysOpt.CombinedIsSchedule | opt/deoxysbc.c:955-1000 | round key i XOR round tweak i is reference round tweakey i of Deoxys-BC-128-384 under the 32-byte tweak |
| DeoxysOpt.BlockEncryptIsRef | opt/deoxysbc.c:1113-1128 | the optimised block encryption equals the reference Deoxys-BC-128-384 encryption |
| DeoxysOpt.BlockDecryptIsRef | opt/deoxysbc.c:1370-1385 | the optimised block decryption equals the reference decryption |
| DeoxysOpt.BlockRoundTrip | opt/deoxysbc.c:1113-1385 | the optimised decryption inverts the optimised encryption under the same tweak |
| DeoxysOpt.Tk2Closed | opt/deoxysbc.c:983-1000 | TK2 of round i is i applications of lfsr_two followed by H^i |
| DeoxysOpt.BaseCounterIsTk2 | opt/deoxysbc.c:1004-1040 | each base counter is the reference TK2 of its round for the base tweak |
| DeoxysOpt.Tk2Xor | opt/deoxysbc.c:1004-1040 | TK2 of every round is XOR-linear in the starting tweak |
| DeoxysOpt.CounterSplit | opt/deoxysbc.c:1004-1040 | the TK2 rounds of the counter with its low byte cleared, XOR those of the low byte alone, are the TK2 rounds of the full counter |
| DeoxysOpt.BaseCountersSplit | opt/deoxysbc.c:1004-1040 | every base counter XOR the TK2 of the low counter byte is the round's full TK2 |
| DeoxysOpt.CombinedDecryptionKeysAgree | opt/deoxysbc.c:1004-1040 | the combined decryption keys of setup_base_counters are the decryption keys of the combined encryption keys |
| DeoxysOpt.HTable | opt/deoxysbc.c:51-74 | H_PERMUTATION_1 .. 8 as index maps: the contract gives 16 entries; DeoxysOpt.HTableIsPow pins table k as H applied k times |
| DeoxysOpt.Lfsr3Macro | opt/deoxysbc.c:169-172 | no contract; pinned by DeoxysOpt.Lfsr3MacroIsLfsr3 |
| DeoxysOpt.Lfsr2Generic | opt/deoxysbc.c:155-159 | no contract; pinned by DeoxysOpt.Lfsr2GenericIsPow and DeoxysOpt.Lfsr2MacroIsLfsr2 |
| DeoxysOpt.ComputeWLane | opt/deoxysbc.c:811-836 | no contract; pinned through DeoxysOpt.CounterLane by DeoxysOpt.CounterLaneIsPow |
| DeoxysOpt.CounterLane | opt/deoxysbc.c:811-836 | no contract; pinned by DeoxysOpt.CounterLaneIsPow |
| DeoxysOpt.OptTk2 | opt/deoxysbc.c:983-1000 | no contract; pinned by DeoxysOpt.OptTk2IsTk2 |
| DeoxysOpt.Combined | opt/deoxysbc.c:955-1000 | the round keys XOR the round tweaks: the contract keeps the count; DeoxysOpt.CombinedIsSchedule pins the entries as the reference 128-384 tweakeys |
| DeoxysOpt.OptRoundKeys | opt/deoxysbc.c:955-966 | the contract gives 17 round keys; DeoxysOpt.SetupKey pins each as key part XOR round constant |
| DeoxysOpt.OptRoundTweaks | opt/deoxysbc.c:983-1000 | the contract gives 17 round tweaks; DeoxysOpt.SetupTweak pins each as TK2 XOR H^i of the tweak block |
| DeoxysOpt.OptEncrypt | opt/deoxysbc.c:1098-1109 | no contract; pinned by DeoxysOpt.OptEncStateIsEncState |
| DeoxysOpt.OptDecrypt | opt/deoxysbc.c:1350-1366 | no contract; pinned by DeoxysOpt.OptDecryptIsInvCipher |
| DeoxysOpt.BlockEncrypt | opt/deoxysbc.c:1113-1128 | no contract; pinned by DeoxysOpt.BlockEncryptIsRef |
| DeoxysOpt.BlockDecrypt | opt/deoxysbc.c:1370-1385 | no contract; pinned by DeoxysOpt.BlockDecryptIsRef and DeoxysOpt.BlockRoundTrip |
| DeoxysOpt.BaseCounter | opt/deoxysbc.c:1004-1040 | no contract; pinned by DeoxysOpt.BaseCounterIsTk2 |
| DeoxysOpt.BaseCounters | opt/deoxysbc.c:1004-1040 | setup_base_counters: the contract gives 17 entries; DeoxysOpt.BaseCountersSplit and DeoxysOpt.BaseCounterIsTk2 pin each as the TK2 of its round |
| DeoxysOpt.CombinedDecryptionKeys | opt/deoxysbc.c:1004-1040 | the contract gives 17 keys; DeoxysOpt.CombinedDecryptionKeysAgree pins them as the reference decryption keys |
| Zcz.ConstantsDistinct | ref/zcz.h:41-60 | the thirteen domains are 0..12 and pairwise distinct, and the six partial-hash counters are pairwise distinct |
| Zcz.SizesAgree | ref/zcz.h:62-71 | a di-block is 32 bytes, a chunk 128 di-blocks, and the basic maximum is exactly one chunk, 4096 bytes |
| Zcz.LengthPredicates | ref/zcz.c:44-66 | ZCZ accepts lengths of at least 32 bytes; the basic scheme accepts multiples of 32 from 32 to 4096, which are 1..128 di-blocks |
| Zcz.NumChunks | ref/zcz.c:70-73 | get_num_chunks is the least c with 128·c at least the number of di-blocks |
| Zcz.ChunkBounds | ref/zcz.c:277-361 | each chunk has 1..128 di-blocks, starts at di-block 128·i, and ends the layer exactly when it is the last chunk |
| Zcz.JoinSplitRoundTrip | ref/zcz.c:94-97 | a byte string of whole di-blocks and its di-blocks convert into each other in both directions |
| Zcz.DiXorFacts | ref/zcz.c:94-97 | xor_di_block is bytewise XOR of the 32 bytes; it cancels and commutes |
| Zcz.DecEnc | ref/zcz.c:138-169 | under an inverting cipher, zcz_primitive_decrypt undoes zcz_primitive_encrypt for every domain, counter and tweak |
| Zcz.HornerPrefix | ref/zcz.c:107-119 | a Horner hash depends only on the values it has consumed |
| Zcz.TopLayer | ref/zcz.c:222-273 | the top layer leaves every right half unchanged and keeps the length |
| Zcz.TopLayerInverse | ref/zcz.c:457-481 | decrypt_top_layer undoes encrypt_top_layer |
| Zcz.BotLayer | ref/zcz.c:365-389 | the bottom layer leaves every left half unchanged and keeps the length |
| Zcz.BotLayerInverse | ref/zcz.c:571-621 | decrypt_bottom_layer undoes encrypt_bottom_layer |
| Zcz.MiddleLayerInvolution | ref/zcz.c:277-361 | for fixed S and T the middle layer is its own inverse, so it needs no inverse cipher |
| Zcz.MiddleLayerLoop | ref/zcz.c:277-361 | the chunk-by-chunk loop with one S_i per chunk and counter 128·i + j + 1 computes the flat middle layer and the three Horner hashes of its output |
| Zcz.HashesOfIsHorner | ref/zcz.c:107-119 | the running hash updates are the Horner hashes of the lefts, the rights (doubling) and the sums (times four) |
| Zcz.LastTopInverse | ref/zcz.c:393-419 | decrypt_last_di_block_top undoes encrypt_last_di_block_top under the same X masks |
| Zcz.LastBottomInverse | ref/zcz.c:423-451 | decrypt_last_di_block_bottom undoes encrypt_last_di_block_bottom under the same Y masks |
| Zcz.BasicRoundTrip | ref/zcz.c:716-750 | internal_zcz_basic_decrypt inverts internal_zcz_basic_encrypt for every number of di-blocks |
| Zcz.PadMessage | ref/zcz.c:175-189 | pad_message writes 0x80 at src and zeros up to tgt, keeps every other byte, and writes nothing when tgt <= src |
| Zcz.PadPrefix | ref/zcz.c:175-189 | padding depends only on the first src bytes, and padding twice is padding once |
| Zcz.PaddedPartial | ref/zcz.c:754-863 | the padded partial di-block is 32 bytes that begin with the message's remaining bytes |
| Zcz.PartialDiRoundTrip | ref/zcz.c:754-975 | on di-blocks, internal_zcz_decrypt inverts internal_zcz_encrypt whenever the partial block is padded after r bytes |
| Zcz.PartialRoundTrip | ref/zcz.c:754-975 | on bytes, the partial-block path decrypts what it encrypted, for every length of at least 32 bytes |
| Zcz.BasicBytesRoundTrip | ref/zcz.c:716-750 | the basic scheme on a whole byte string of di-blocks decrypts what it encrypted |
| Zcz.ZczBasicEncrypt | ref/zcz.c:987-1003 | zcz_basic_encrypt produces output exactly on the basic lengths, and that output has the input's length |
| Zcz.ZczBasicDecrypt | ref/zcz.c:1007-1023 | zcz_basic_decrypt produces output exactly on the basic lengths, and that output has the input's length |
| Zcz.ZczEncrypt | ref/zcz.c:1027-1050 | zcz_encrypt produces output exactly on lengths of at least 32 bytes, and that output has the input's length |
| Zcz.ZczDecrypt | ref/zcz.c:1054-1077 | zcz_decrypt produces output exactly on lengths of at least 32 bytes, and that output has the input's length |
| Zcz.ZczRoundTrip | ref/zcz.c:987-1077 | both APIs decrypt what they encrypted whenever they accept the length |
| Zcz.BasicIsZcz | ref/zcz.c:987-1077 | on basic lengths the basic and the general API agree in both directions; on other lengths the basic API writes nothing |
| Zcz.IsLengthOkForZcz | ref/zcz.c:50-52 | no contract; pinned by Zcz.LengthPredicates |
| Zcz.IsLengthOkForBasic | ref/zcz.c:44-66 | no contract; pinned by Zcz.LengthPredicates |
| Zcz.ChunkSize | ref/zcz.c:312-321 | no contract; pinned by Zcz.ChunkBounds |
| Zcz.DiXor | ref/zcz.c:94-97 | no contract; pinned by Zcz.DiXorFacts |
| Zcz.Horner | ref/zcz.c:107-119 | no contract; pinned by Zcz.HornerPrefix and Zcz.HashesOfIsHorner |
| Zcz.XMask | ref/zcz.c:222-273 | no contract; pinned by ZczOpt.FinishIsMask, and Zcz.LastTopInverse applies it on both sides |
| Zcz.YMask | ref/zcz.c:277-361 | no contract; pinned by ZczOpt.FinishIsMask, and Zcz.LastBottomInverse applies it on both sides |
| Zcz.TopDi | ref/zcz.c:222-273 | no contract; pinned by Zcz.TopLayer and Zcz.TopLayerInverse |
| Zcz.DecTopLayer | ref/zcz.c:457-481 | decrypt_top_layer: the contract keeps the length and every right half; Zcz.TopLayerInverse pins it as the inverse of the top layer |
| Zcz.BotDi | ref/zcz.c:365-389 | no contract; pinned by Zcz.BotLayer and Zcz.BotLayerInverse |
| Zcz.DecBotLayer | ref/zcz.c:571-621 | decrypt_bottom_layer: the contract keeps the length and every left half; Zcz.BotLayerInverse pins it as the inverse of the bottom layer |
| Zcz.SBlock | ref/zcz.c:297-310 | no contract; pinned by ZczOpt.OptSBlockIsSBlock |
| Zcz.MiddleLayer | ref/zcz.c:277-361 | the contract keeps the length; Zcz.MiddleLayerInvolution pins it as its own inverse and Zcz.MiddleLayerLoop as what the chunk loop computes |
| Zcz.MiddleChunk | ref/zcz.c:312-345 | one pass of the inner loop over chunk i: the output grows by the chunk size, and the output and the running Y_L / Y_R stay a prefix of the middle layer and its hashes |
| Zcz.MiddleStep | ref/zcz.c:323-344 | one di-block of the inner loop: the output grows by one di-block, and output and hashes stay a prefix of the middle layer and its hashes |
| Zcz.LastTop | ref/zcz.c:393-419 | no contract; pinned by Zcz.LastTopInverse |
| Zcz.DecLastTop | ref/zcz.c:625-652 | no contract; pinned by Zcz.LastTopInverse |
| Zcz.LastBottom | ref/zcz.c:423-451 | no contract; pinned by Zcz.LastBottomInverse |
| Zcz.DecLastBottom | ref/zcz.c:656-682 | no contract; pinned by Zcz.LastBottomInverse |
| Zcz.BasicEncrypt | ref/zcz.c:716-731 | the contract keeps the length; Zcz.BasicRoundTrip pins Zcz.BasicDecrypt as its inverse |
| Zcz.BasicDecrypt | ref/zcz.c:735-750 | the contract keeps the length; Zcz.BasicRoundTrip pins it as the inverse of Zcz.BasicEncrypt |
| Zcz.Hash | ref/zcz.c:193-215 | no contract; it is XORed onto the padded final di-block on both sides, and Zcz.PartialDiRoundTrip pins the result |
| Zcz.PartialEncryptDi | ref/zcz.c:754-863 | the contract keeps the di-block count and a 32-byte tail; Zcz.PartialDiRoundTrip pins Zcz.PartialDecryptDi as its inverse |
| Zcz.PartialDecryptDi | ref/zcz.c:867-975 | the contract keeps the di-block count and a 32-byte tail; Zcz.PartialDiRoundTrip pins it as the inverse of Zcz.PartialEncryptDi |
| Zcz.PartialEncrypt | ref/zcz.c:754-863 | the contract keeps the length; Zcz.PartialRoundTrip pins Zcz.PartialDecrypt as its inverse |
| Zcz.PartialDecrypt | ref/zcz.c:867-975 | the contract keeps the length; Zcz.PartialRoundTrip pins it as the inverse of Zcz.PartialEncrypt |
| Zcz.BasicEncryptBytes | ref/zcz.c:716-731 | the contract keeps the length; Zcz.BasicBytesRoundTrip pins Zcz.BasicDecryptBytes as its inverse |
| Zcz.BasicDecryptBytes | ref/zcz.c:735-750 | the contract keeps the length; Zcz.BasicBytesRoundTrip pins it as the inverse of Zcz.BasicEncryptBytes |
| ZczDeoxys.BuildTweak | ref/zcz.c:125-134 | the tweak is the 16-byte tweak block, the domain's low byte, seven zeros, then the counter modulo 2^64 little-endian |
| ZczDeoxys.BuildTweakInjective | ref/zcz.c:125-134 | two tweaks are equal exactly when the tweak blocks, the domain bytes and the 64-bit counters are equal |
| ZczDeoxys.BuildTweakIsRefTweak | opt/deoxysbc.c:983-1000 | the optimised setup_tweak lays out the same 32 bytes as build_tweak |
| ZczDeoxys.RefTbcAt | ref/zcz.c:138-169 | the ZCZ primitive is Deoxys-BC-128-384 under the build_tweak tweak, in both directions |
| ZczDeoxys.RefTbcInverts | ref/zcz.c:138-169 | with the FIPS 197 inverse identities, the primitive decryption inverts the encryption |
| ZczDeoxys.DeoxysZczRoundTrip | ref/zcz.c:987-1077 | ZCZ over Deoxys-BC accepts lengths of at least 32 bytes and decrypts what it encrypted, through both APIs |
| ZczDeoxys.OptEncIsRefEnc | opt/deoxysbc.c:1113-1128 | the optimised primitive encryption equals the reference one on every input |
| ZczDeoxys.OptDecIsRefDec | opt/deoxysbc.c:1370-1385 | the optimised primitive decryption equals the reference one on every input |
| ZczDeoxys.OptTbcInverts | opt/deoxysbc.c:1113-1385 | the optimised primitive inverts itself |
| ZczDeoxys.RefTbc | ref/zcz.c:138-169 | no contract; pinned by ZczDeoxys.RefTbcAt and ZczDeoxys.RefTbcInverts |
| ZczDeoxys.OptTbc | opt/deoxysbc.c:1113-1385 | no contract; pinned by ZczDeoxys.OptEncIsRefEnc, ZczDeoxys.OptDecIsRefDec and ZczDeoxys.OptTbcInverts |
| ZczOpt.SweepCounterValue | opt/zcz.c:229-295 | a batched di-block gets its running counter modulo 256 as written and the counter itself with full lanes; every single call gets the counter itself |
| ZczOpt.SweepCounterIsReference | opt/zcz.c:229-295 | the sweep counters are the reference counters j + 1 when none of them reaches 256, or the lanes are full, or the sweep is scalar |
| ZczOpt.BatchCounter | opt/deoxysbc.c:709-718 | within the batch starting at k, lane m is di-block k + m of the sweep |
| ZczOpt.BatchEnd | opt/zcz.c:235-262 | once fewer than eight di-blocks remain after whole batches, the batches covered count / 8 · 8 di-blocks |
| ZczOpt.OptSBlockIsSBlock | opt/zcz.c:378-390 | S_i computed under the tweak set64(i + 1, 0) is the reference chunk value |
| ZczOpt.StepIsReference | opt/zcz.c:236-295 | with the reference counter g + 1, one step of each layer is di-block g of the reference layer, in both directions |
| ZczOpt.StepInverse | opt/zcz.c:636-832 | the outer steps are undone under the same counter; the middle step undoes itself exactly when both directions derive the same Z |
| ZczOpt.MixTwice | opt/zcz.c:410-420 | mixing in Z and then Z' restores the di-block exactly when Z = Z' |
| ZczOpt.LoadMultiplies | opt/gfmul.h:45-58 | doubling and multiplying by four on blocks are the register multiplications by x and x^2 after loading |
| ZczOpt.BridgeHorner | opt/gfmul.c:55-137 | register Horner steps over loaded blocks, started from the loaded block hash, continue the block hash |
| ZczOpt.AbsorbOneFits | opt/zcz.c:283-292 | one di-block through gf_2_128_double, gf_2_128_times_four and vxor advances both register hashes by one Horner step of the reference hashes |
| ZczOpt.AbsorbEightFits | opt/zcz.c:248-256 | eight di-blocks through the 8-way Horner steps advance both register hashes by eight reference Horner steps |
| ZczOpt.FinishIsMask | opt/zcz.c:303-313 | registers holding the hashes of a layer's output give that layer's X or Y masks |
| ZczOpt.SweepIsReference | opt/zcz.c:235-295 | below 256 di-blocks, or with full lanes, every sweep di-block is under the reference counter j + 1 |
| ZczOpt.TopSweepIsReference | opt/zcz.c:207-329 | under those conditions the optimised top layer equals the reference one, in both directions |
| ZczOpt.BotSweepIsReference | opt/zcz.c:501-567 | under those conditions the optimised bottom layer equals the reference one, in both directions |
| ZczOpt.MidLayerIsReference | opt/zcz.c:333-497 | the middle layer equals the reference one when it is scalar, or shorter than 256 di-blocks, or the lanes are full |
| ZczOpt.MidStepIsReference | opt/zcz.c:402-445 | under those conditions middle di-block g is the reference di-block g |
| ZczOpt.BatchStep | opt/zcz.c:235-262 | one 8-way batch extends the sweep by eight di-blocks under lane counters and keeps the register hashes equal to the reference hashes |
| ZczOpt.SingleStep | opt/zcz.c:268-296 | one single call extends the sweep by one di-block under the full counter and keeps the register hashes equal to the reference hashes |
| ZczOpt.Sweep | opt/zcz.c:207-296 | batches while at least eight remain, then singles, cover every di-block of the range and leave the register hashes equal to the reference hashes |
| ZczOpt.SweptIsLayer | opt/zcz.c:207-296 | a finished sweep over the first count di-blocks is the optimised layer over them |
| ZczOpt.MiddleSweep | opt/zcz.c:333-497 | the per-chunk middle loops compute the optimised middle layer, with both hash registers equal to the reference hashes |
| ZczOpt.EncryptTop | opt/zcz.c:207-329 | encrypt_until computes the top layer on the first n - 1 di-blocks and the X masks of its output |
| ZczOpt.EncryptMiddle | opt/zcz.c:333-497 | encrypt_middle_layer computes the batched middle layer and the Y masks of its output |
| ZczOpt.EncryptBottom | opt/zcz.c:501-567 | encrypt_bottom_layer computes the batched bottom layer |
| ZczOpt.DecryptBottom | opt/zcz.c:836-947 | decrypt_bottom_layer computes the batched inverse bottom layer on the first n - 1 di-blocks and the Y masks |
| ZczOpt.DecryptMiddle | opt/zcz.c:706-832 | decrypt_middle_layer computes the scalar middle layer and the X masks |
| ZczOpt.DecryptTop | opt/zcz.c:636-702 | decrypt_top_layer computes the batched inverse top layer |
| ZczOpt.OptBasicEncrypt | opt/zcz.c:1047-1062 | internal_zcz_basic_encrypt composes the optimised layers and last di-block steps |
| ZczOpt.OptBasicDecrypt | opt/zcz.c:1066-1081 | internal_zcz_basic_decrypt composes the optimised inverse layers with a scalar middle layer |
| ZczOpt.OptIsReference | opt/zcz.c:1047-1081 | up to 256 di-blocks, or with full lanes, the optimised basic scheme equals the reference one in both directions |
| ZczOpt.OptRoundTrip | opt/zcz.c:1047-1081 | under those conditions the optimised basic decryption inverts the optimised basic encryption |
| ZczOpt.OptPartialEncrypt | opt/zcz.c:1085-1194 | internal_zcz_encrypt wraps the partial-block path around the optimised basic encryption |
| ZczOpt.OptPartialDecrypt | opt/zcz.c:1198-1305 | internal_zcz_decrypt wraps the partial-block path around the optimised basic decryption |
| ZczOpt.PartialEncryptIsReference | opt/zcz.c:1085-1194 | under those conditions the optimised partial encryption equals the reference one |
| ZczOpt.PartialDecryptIsReference | opt/zcz.c:1198-1305 | under those conditions the optimised partial decryption equals the reference one |
| ZczOpt.ZczEncryptWith | opt/zcz.c:1359-1382 | the optimised zcz_encrypt produces output exactly on lengths of at least 32 bytes, and that output has the input's length |
| ZczOpt.ZczDecryptWith | opt/zcz.c:1386-1409 | the optimised zcz_decrypt produces output exactly on lengths of at least 32 bytes, and that output has the input's length |
| ZczOpt.OptZczEncrypt | opt/zcz.c:1359-1382 | the API method dispatches to the basic scheme, to nothing or to the partial path through the optimised layers |
| ZczOpt.OptZczDecrypt | opt/zcz.c:1386-1409 | the API method dispatches as the encryption does, through the optimised inverse layers |
| ZczOpt.OptZczIsReference | opt/zcz.c:1319-1409 | below 257 full di-blocks, or with full lanes, the optimised API equals the reference API in both directions |
| ZczOpt.OptBasicIsReference | opt/zcz.c:1319-1355 | on basic lengths the optimised API is the reference basic API whatever the lanes |
| ZczOpt.OptZczRoundTrip | opt/zcz.c:1359-1409 | under those conditions the optimised API decrypts what it encrypted |
| ZczOpt.SweepInverse | opt/zcz.c:636-702 | the outer layers invert whatever the lanes, because both directions batch the same di-blocks under the same counters |
| ZczOpt.WrappedMiddleCounters | opt/zcz.c:402-413 | with 257 di-blocks, middle di-block 255 is encrypted under counter 0 and decrypted under 256 as written; full lanes give 256 both times |
| ZczOpt.WrappedRoundTripFails | opt/zcz.c:402-413 | as written, decrypting the optimised encryption of any 257-di-block message gets di-block 255 wrong, under an inverting cipher that complements its input at counter 0 only |
| ZczOpt.LaneCounter | opt/deoxysbc.c:709-718 | no contract; pinned by ZczOpt.BatchCounter and ZczOpt.WrappedMiddleCounters |
| ZczOpt.SweepCounter | opt/zcz.c:229-295 | no contract; pinned by ZczOpt.SweepCounterValue and ZczOpt.SweepCounterIsReference |
| ZczOpt.Step | opt/zcz.c:236-295 | no contract; pinned by ZczOpt.StepIsReference and ZczOpt.StepInverse |
| ZczOpt.OptSBlock | opt/zcz.c:378-390 | no contract; pinned by ZczOpt.OptSBlockIsSBlock |
| ZczOpt.AbsorbOne | opt/zcz.c:283-292 | no contract; pinned by ZczOpt.AbsorbOneFits |
| ZczOpt.AbsorbEight | opt/zcz.c:248-256 | no contract; pinned by ZczOpt.AbsorbEightFits |
| ZczOpt.Finish | opt/zcz.c:303-313 | no contract; pinned by ZczOpt.FinishIsMask |
| ZczOpt.SweepLayer | opt/zcz.c:207-317 | one sweep of encrypt_until: the contract keeps the length; ZczOpt.SweepIsReference, TopSweepIsReference and BotSweepIsReference pin it to the reference layers and ZczOpt.SweepInverse to its inverse |
| ZczOpt.MidCounter | opt/zcz.c:402-475 | no contract; pinned by ZczOpt.MidStepIsReference and ZczOpt.WrappedMiddleCounters |
| ZczOpt.MidStep | opt/zcz.c:402-475 | no contract; pinned by ZczOpt.MidStepIsReference |
| ZczOpt.MidLayer | opt/zcz.c:333-497 | the contract keeps the length; ZczOpt.MidLayerIsReference pins it as the reference middle layer |
| ZczOpt.BasicEncryptWith | opt/zcz.c:1047-1062 | the contract keeps the length; ZczOpt.OptIsReference pins it to Zcz.BasicEncrypt and ZczOpt.WrappedRoundTripFails shows where the wrapping lanes break it |
| ZczOpt.BasicDecryptWith | opt/zcz.c:1066-1081 | the contract keeps the length; ZczOpt.OptIsReference and ZczOpt.OptRoundTrip pin it as the inverse of BasicEncryptWith |
| ZczOpt.PartialEncryptDiWith | opt/zcz.c:1085-1194 | the contract keeps the di-block count and a 32-byte tail; ZczOpt.PartialEncryptIsReference pins it to Zcz.PartialEncryptDi |
| ZczOpt.PartialDecryptDiWith | opt/zcz.c:1198-1305 | the contract keeps the di-block count and a 32-byte tail; ZczOpt.PartialDecryptIsReference pins it to Zcz.PartialDecryptDi |
| JsonParser.ToByteArray | shared/json_parser.cpp:86-96 | to_byte_array yields one byte per two characters, rounding up for a trailing odd character |
| JsonParser.ToUint8 | shared/json_parser.cpp:80-82 | to_uint8_t yields a byte exactly when the vector is not empty |
| JsonParser.ToUint64 | shared/json_parser.cpp:66-76 | to_uint64_t yields a word exactly when there are eight bytes |
| JsonParser.DigitPair | shared/json_parser.cpp:89-92 | strtol in base 16 on two hex digits, cut to a byte, gives 16 times the first digit plus the second |
| JsonParser.DigitAlone | shared/json_parser.cpp:89-92 | a single trailing hex digit gives its own value |
| JsonParser.HexRoundTrip | shared/json_parser.cpp:86-96 | to_byte_array reads back every byte string from its hex spelling, in lower or upper case |
| JsonParser.ByteArrayAppend | shared/json_parser.cpp:86-96 | parsing works pair by pair: an even-length prefix parses on its own |
| JsonParser.OddTail | shared/json_parser.cpp:86-96 | an odd-length string ends in a byte parsed from its last character alone |
| JsonParser.MalformedPairs | shared/json_parser.cpp:89-92 | pairs that are not two hex digits are not rejected: "4g" gives 4, and "zz" and "0x" give 0 |
| JsonParser.SpacedAndSignedPairs | shared/json_parser.cpp:89-92 | leading white space is skipped (" f" gives 15) and a minus sign wraps through the cast ("-1" gives 255) |
| JsonParser.BeRoundTrip | shared/json_parser.cpp:66-76 | to_uint64_t's big-endian reading and to_be_array's writing are inverse bijections |
| JsonParser.CounterRoundTrip | shared/json_parser.cpp:200-201 | the hex spelling of a counter's big-endian bytes reads back as the counter |
| JsonParser.DomainRoundTrip | shared/json_parser.cpp:198-199 | the tweak domain is the first byte of its field's hex spelling; later bytes are ignored |
| JsonParser.StrtolHex | shared/json_parser.cpp:89-92 | no contract; pinned by JsonParser.DigitPair, DigitAlone, MalformedPairs and SpacedAndSignedPairs |
| JsonParser.PairValue | shared/json_parser.cpp:89-92 | the value of one or two hex characters, or 0 when strtol reads none: the contract bounds it below 256, the range of the uint8_t the C++ code casts to |
| JsonParser.FromBe | shared/json_parser.cpp:66-76 | no contract; pinned by JsonParser.BeRoundTrip |
| JsonParser.HexEncode | shared/json_parser.cpp:86-96 | the hex form of a byte string: two hex digits per byte; JsonParser.HexRoundTrip pins it as inverted by ToByteArray |
| Plot.SplitOn | scripts/plot.py:51 | str.split(' ') yields at least one piece |
| Plot.SplitJoin | scripts/plot.py:51 | splitting the join of pieces that contain no separator gives the pieces back |
| Plot.JoinSplit | scripts/plot.py:51 | joining the pieces of a split with the separator gives the string back |
| Plot.SplitCount | scripts/plot.py:51-54 | a split has at least two pieces exactly when the separator occurs in the string |
| Plot.StripPadding | scripts/plot.py:46 | strip removes white-space padding on both sides and nothing of a body that starts and ends with non-space |
| Plot.SkipRules | scripts/plot.py:42-56 | get_tuple skips a line exactly when it is empty or blank after strip, starts with '#', or has no space, in both directions |
| Plot.DataLineReads | scripts/plot.py:42-56 | a padded line "x y" with convertible fields gives the point (int(x), float(y)) |
| Plot.DoubleSpaceRaises | scripts/plot.py:51-56 | two spaces between the fields make the second piece empty, so the float conversion raises |
| Plot.Read | scripts/plot.py:61-75 | when read returns, its x and y lists have the same length |
| Plot.ReadAppend | scripts/plot.py:61-75 | read of concatenated files is the concatenation of the reads, so points keep their order |
| Plot.ReadLoop | scripts/plot.py:61-75 | the loop over the lines, appending each point, computes read |
| Plot.ReadRaises | scripts/plot.py:61-75 | read raises exactly when some line raises in get_tuple |
| Plot.ReadCounts | scripts/plot.py:61-75 | read returns exactly one point per line that get_tuple turns into a point |
| Plot.Strip | scripts/plot.py:46 | no contract; pinned by Plot.StripPadding |
| Plot.GetTuple | scripts/plot.py:42-56 | no contract; pinned by Plot.SkipRules, DataLineReads and DoubleSpaceRaises |

## Left out

- ZczOpt.LaneCounter: the lane counter of an 8-way call is stated as (c mod 256 + m) mod 256, reading the counter setup of opt/deoxysbc.c:709-718 and 790-795. It is not derived from init_counters / init_middle_counters, whose byte-lane arithmetic on a zero base is not modelled.
- ZczOpt: every 8-way Deoxys-BC call is modelled as eight calls of the scalar primitive. The AVX lane plumbing of encrypt_eight / decrypt_eight and the load/store of eight blocks are not modelled; the scalar cipher underneath is proved equal to the reference one.
- Zcz.PaddedPartial: zeros stand in for the bytes of the uninitialised pad buffer after 0x80. pad_message overwrites all of them, so the value is the same.
- Partial.LoadPartial: the bytes of the uninitialised temporary are the parameter `stale`. Every property is stated for all of its values. A length n > 16 that is not a multiple of 16 (17..31, 33..47, ...) is excluded by the requires: for those n the copy loop of opt/utils-opt.c:52-54 writes n bytes into the 16-byte temporary `tmp` and overruns it, which C leaves undefined. load_partial has no call site in the files this model covers, so whether any caller reaches such a length is not known; it is recorded here rather than as a finding.
- Deoxys.Aes: the AES round functions (SubBytes, ShiftRows, MixColumns and their inverses, aesenc / aesdec) are uninterpreted maps. They are constrained only by the inverse identities of FIPS 197 (predicate Inverses). The AES tables of ref/aes.h are not part of this model.
- The context structs, malloc / free and the puts / print_hex diagnostics are not modelled; a length refused by the API returns None where the C code prints and returns.
- zcz_keysetup: it copies the key (ref/zcz.c:981-983) or runs the optimised key and decryption-key setup (opt/zcz.c:1311-1315). The model passes the key, or the cipher built from it, as a parameter instead.
- JsonParser: the JSON library, file reading and to_vector (shared/json_parser.cpp:100-116) are I/O and not modelled. Each character stands for one byte of the string: a string is modelled as its sequence of bytes, and UTF-8 decoding is not modelled.
- JsonParser.StrtolHex: overflow clamping to LONG_MAX / LONG_MIN is left out; it cannot occur on the one or two characters that to_byte_array passes.
- Plot: plot(), the argument parser, main and file I/O are not modelled. Python's int() and float() are the parameters toInt and toFloat, partial functions whose None means the call raises. A `None` line cannot come from readlines() and is not modelled.
- The benchmark drivers and the test programs are not modelled.

## Findings

| source | as written | input that shows it | evidently intended | confidence | as-written member | corrected member |
|---|---|---|---|---|---|---|
| shared/utils.c:275-283 | the loop runs i over every index and swaps i with n - 1 - i, so each pair is swapped twice and the array is left as it was | any array whose first and last bytes differ, e.g. [0x01, 0x02] | reverse the array: swap only for i < n / 2 | high, not executed | Bytes.RevertBytes, Bytes.RevertBytesIsNotReversal | Bytes.RevertBytesCorrected |
| opt/zcz.c:402-413 | the encrypting middle layer calls the 8-way cipher, whose lanes take the counter's low byte plus the lane number modulo 256 on a zero base (opt/deoxysbc.c:1307-1344). The decrypting middle layer (opt/zcz.c:775-787) calls the scalar cipher with the full counter k | any message of 257 full di-blocks (8224 bytes); middle di-block 255 is enciphered under counter 0 and deciphered under 256 | the same counter in both directions, the full running counter in every lane | medium, not executed | ZczOpt.WrappedMiddleCounters, ZczOpt.WrappedRoundTripFails | ZczOpt.OptRoundTrip, ZczOpt.OptZczRoundTrip (with Lanes.Full) |

The comment in setup_decryption_key (ref/deoxysbc.c:130-132) says the subkeys are put in reverse order, but the loop copies them in order. The code is right and the comment is wrong. The decryption routines walk the keys from the last to the first themselves. Deoxys.DecryptionKeys models the loop as written, and Deoxys.CipherRoundTrip proves that this order is the one decryption needs.
