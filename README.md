# libAES round primitives and hex codec, in Dafny

This project models the AES building blocks of `lib_crypto` and the hex codec of
its command-line front end, and proves what FIPS-197 and the code promise of them.

- `libAES/libAES.cpp` holds the round primitives. Each one updates a 16-byte
  block (or key) in place:
  - `sBox` is SubBytes.
  - `shiftRows` and its helper `rotate` are ShiftRows.
  - `mixColumns` and its multiply `gfMult` are MixColumns.
  - `addRoundKey` is AddRoundKey.
  - `calcRoundKey128` is one step of the AES-128 key expansion.
- `main/main.cpp` holds `fromHexString` and `vectorToHex`. They are a base16
  parser and writer in the manner of section 8 of RFC 4648, with lower-case
  output.

The project has these modules:

- `SBoxTable` (`sbox.dfy`): the substitution table `SBoxConsts` and the lookup
  `Sub`.
- `GaloisField` (`galois_field.dfy`) has two functions:
  - `GfMult`, the multiply as written: it handles multipliers 1, 2 and 3 and
    returns 0 for any other;
  - `FieldMul`, the product in GF(2^8) of section 4.2 of FIPS-197, built from
    `XTime`. It is the reference `GfMult` is checked against.
- `AesSpec` (`aes_spec.dfy`) defines every primitive as a pure function on a
  16-byte `State`. The state is column-major: byte `i` sits at row `i % 4`,
  column `i / 4`. The lemmas connect these functions to the closed forms of the
  standard:
  - the explicit ShiftRows permutation and its inverse;
  - the matrix product in GF(2^8);
  - the KeyExpansion word recurrence of Figure 11 of FIPS-197.
- `LibAES` (`lib_aes.dfy`) has the source's loops as methods.
  - `SBox`, `ShiftRows`, `MixColumns`, `AddRoundKey` and `CalcRoundKey128`
    update an `array<bv8>` in place. Each is proved to leave the first 16
    bytes equal to the `AesSpec` function of the bytes it was given, and to
    leave every byte beyond them unchanged.
  - `Rotate` takes and returns a `seq<bv8>` value, not an array (see
    "Left out").
  - `CalcRoundKey128` is split into two helper methods. `RoundTailOf`
    computes the tail and writes nothing. `CascadeTail` updates the key array
    in place, with the same guarantees as the other array methods.
  - `MixedEntry` computes one byte of `mixColumns` and writes nothing.
- `HexCodec` (`hex_codec.dfy`) has `FromHexString` and `VectorToHex` as loops.
  Each is proved against a reference function: `HexDecode` and `HexEncode`.
  There are round-trip lemmas in both directions.
- `KnownAnswers` (`known_answers.dfy`) holds worked examples of FIPS-197
  (section 5.1.1, Appendix A.1 and Appendix B), checked against the spec
  functions.

## Model

| member | source | states |
|---|---|---|
| LibAES.SBox | libAES/libAES.cpp:7-13 | the first 16 bytes become their S-box entries, `SubBytes` of the old block; the rest of the array is unchanged |
| LibAES.SubBytesOfBytes | libAES/libAES.cpp:9-12 | a state whose every byte is the S-box entry of the matching old byte is `SubBytes` of the old state |
| LibAES.Rotate | libAES/libAES.cpp:63-73 | `n` erase-front/push-back steps give `RotateLeft(subBlock, n)`; a count of zero or less leaves the vector as it was |
| AesSpec.RotateLeft | libAES/libAES.cpp:63-73 | rotating keeps the length |
| AesSpec.RotateLeftAt | libAES/libAES.cpp:63-73 | element `k` of the rotated vector is the old element `(k + n) mod len` |
| LibAES.ShiftRows | libAES/libAES.cpp:16-30 | the first 16 bytes end as `ShiftRows` of the old block; bytes past 16 are unchanged |
| LibAES.WriteBackRow | libAES/libAES.cpp:24-27 | writing the rotated vector to bytes i, i+4, i+8 and i+12 replaces row i and keeps every other row |
| AesSpec.ShiftRowsRotatesRows | libAES/libAES.cpp:19-28 | row r of the result is row r of the input rotated left by r places (row 0 by none) |
| AesSpec.ShiftRowsOfRows | libAES/libAES.cpp:19-28 | a state whose every row r is the old row rotated by r is the `ShiftRows` of the old state |
| AesSpec.ShiftRowsExplicit | libAES/libAES.cpp:16-30 | byte r + 4c becomes old byte r + 4((c + r) mod 4): the permutation of section 5.1.2 of FIPS-197 |
| AesSpec.ShiftRowsPermutes | libAES/libAES.cpp:16-30 | the bytes are only permuted: the multiset of bytes is unchanged |
| AesSpec.InvShiftRowsUndoesShiftRows | libAES/libAES.cpp:16-30 | the inverse rotation undoes ShiftRows |
| AesSpec.ShiftRowsUndoesInvShiftRows | libAES/libAES.cpp:16-30 | ShiftRows undoes the inverse rotation, so ShiftRows is a bijection |
| AesSpec.SubBytesShiftRowsCommute | libAES/libAES.cpp:7-30 | substituting then shifting equals shifting then substituting |
| GaloisField.GfMult | libAES/libAES.cpp:76-98 | multiplying by 0x01 gives the data back; any multiplier other than 0x01, 0x02 and 0x03 gives 0; zero data gives 0 for every multiplier |
| GaloisField.GfMultAsFieldMul | libAES/libAES.cpp:76-98 | `gfMult` is the GF(2^8) product for multipliers 0x01, 0x02 and 0x03, and 0 for every other multiplier |
| GaloisField.GfMultByTwoArithmetic | libAES/libAES.cpp:84-90 | doubling is (2 * data) mod 256, XORed with 0x1b exactly when bit 7 of data is set |
| GaloisField.GfMultByTwoIsXTime | libAES/libAES.cpp:84-90 | doubling is the field's multiplication by x |
| GaloisField.FieldMulSmall | libAES/libAES.cpp:92-93 | the field product by 0x03 is the product by 0x02 XORed with the byte itself, as the 0x03 branch computes it |
| GaloisField.DoubleIsShift | libAES/libAES.cpp:85 | `(data << 1) & 0xFE` is (2 * data) mod 256 |
| GaloisField.HighBitIsAtLeast128 | libAES/libAES.cpp:86 | `data & (1 << 7)` is set exactly when data >= 128 |
| LibAES.MixColumns | libAES/libAES.cpp:33-51 | the first 16 bytes end as `MixColumns` of the old block, computed from the copy only; bytes past 16 are unchanged |
| LibAES.MixedEntry | libAES/libAES.cpp:44-48 | the byte the loop body computes from the copy with `gfMult` is entry `row` of the FIPS-197 matrix product over GF(2^8) of column `col` of the copy (the reference `FieldMul` product), and nothing is written |
| LibAES.WriteBackColumn | libAES/libAES.cpp:42-50 | after the inner loop, column `col` is the mixed column and earlier columns are unchanged |
| AesSpec.MixColumnsAt | libAES/libAES.cpp:44-48 | new byte col*4+row is the XOR over k of `gfMult(old[col*4+k], M[row][k])` |
| AesSpec.MixColumnsByColumn | libAES/libAES.cpp:42-50 | output column c depends on input column c alone |
| AesSpec.MixColumnsOfColumns | libAES/libAES.cpp:42-50 | a state whose every column is the mix of the old column is `MixColumns` of the old state |
| AesSpec.MixRowIsFieldDot | libAES/libAES.cpp:35-48 | each output byte is the GF(2^8) dot product of a matrix row and the column |
| AesSpec.MixColumnIsFipsMix | libAES/libAES.cpp:35-48 | the column mix is the matrix product of section 5.1.3 of FIPS-197 over GF(2^8) |
| LibAES.AddRoundKey | libAES/libAES.cpp:54-60 | the first 16 bytes become old block XOR old key, also when `key` is the block itself; the rest is unchanged |
| AesSpec.AddRoundKeyTwice | libAES/libAES.cpp:54-60 | adding the same round key twice restores the block |
| LibAES.CalcRoundKey128 | libAES/libAES.cpp:100-119 | for 1 <= round <= 10: the returned tail is `RoundTail` of the old key, the key becomes `NextRoundKey` of the old key, and bytes past 16 are unchanged |
| LibAES.RoundTailOf | libAES/libAES.cpp:102-109 | the tail is the S-box entries of bytes 13, 14, 15 and 12, with `Rcon[round - 1]` XORed into byte 0 |
| LibAES.TailIsRoundTail | libAES/libAES.cpp:103-109 | SubWord of the rotated last word, with Rcon XORed into its first byte, is the tail |
| LibAES.XorRconWord | libAES/libAES.cpp:109 | XORing Rcon into byte 0 is XOR with the round-constant word |
| LibAES.CascadeTail | libAES/libAES.cpp:111-117 | bytes 0 .. 3 are XORed with the tail, then byte i from 4 on with the new byte i - 4; the result is the word cascade `CascadeWords(old key, tail)` |
| AesSpec.CascadeWordsOfBytes | libAES/libAES.cpp:111-117 | any state following the byte recurrence new[i] = old[i] ^ (i < 4 ? tail[i] : new[i - 4]) is the word cascade |
| AesSpec.CascadeDetermined | libAES/libAES.cpp:115-117 | two states that follow the same cascade agree on every byte |
| AesSpec.NextRoundKeyBytes | libAES/libAES.cpp:111-117 | byte i of the new key is old byte i XOR tail byte i for i < 4, and XOR new byte i - 4 otherwise |
| AesSpec.NextRoundKeyColumn | libAES/libAES.cpp:111-117 | word-wise: new word 0 is old word 0 XOR the tail, new word c is old word c XOR new word c - 1 |
| AesSpec.RoundTailIsRotSubRcon | libAES/libAES.cpp:102-109 | the tail is SubWord(RotWord(w3)) XOR Rcon, the `temp` of FIPS-197 KeyExpansion |
| AesSpec.PreviousUndoesNextRoundKey | libAES/libAES.cpp:100-119 | the step is injective: undoing it gives back the key it started from |
| AesSpec.NextUndoesPreviousRoundKey | libAES/libAES.cpp:100-119 | the step is onto: every key is the step of the key that undoing yields |
| AesSpec.RoundKeyAfterIsKeySchedule | libAES/libAES.cpp:100-119 | r successive steps, on rounds 1 .. r, give words 4r .. 4r+3 of the AES-128 key schedule of Figure 11 of FIPS-197 |
| AesSpec.RoundFollowsSchedule | libAES/libAES.cpp:100-119 | one step takes schedule words 4(r-1) .. 4(r-1)+3 to words 4r .. 4r+3 |
| AesSpec.StepFollowsSchedule | libAES/libAES.cpp:111-117 | each new word follows the schedule recurrence w[i] = w[i-4] XOR temp |
| KnownAnswers.SubOf53 | libAES/libAES.cpp:11 | the table maps 0x53 to 0xed, the example of section 5.1.1 of FIPS-197 |
| KnownAnswers.MixColumnOfRound1 | libAES/libAES.cpp:33-51 | column d4 bf 5d 30 mixes to 04 66 81 e5, as in round 1 of Appendix B of FIPS-197 |
| KnownAnswers.TailOfRound1 | libAES/libAES.cpp:102-109 | the Appendix A.1 temp of word i = 4: 09cf4f3c becomes 8b84eb01 |
| KnownAnswers.NextRoundKeyOfRound1 | libAES/libAES.cpp:100-119 | the first step turns the Appendix A.1 cipher key into round key a0fafe17 88542cb1 23a33939 2a6c7605 |
| HexCodec.FromHexString | main/main.cpp:111-126 | the result is `HexDecode(hex)`; it fails exactly when the length is odd; otherwise it has \|hex\|/2 bytes and byte k is 16 * digit(hex[2k]) + digit(hex[2k+1]) |
| HexCodec.DecodePairsSnoc | main/main.cpp:119-123 | one more iteration appends the byte of the next pair |
| HexCodec.DecodePairsAt | main/main.cpp:119-123 | byte k of the decoded output is made from characters 2k and 2k + 1 |
| HexCodec.DigitValue | main/main.cpp:121 | a base-16 digit is worth less than 16, and less than 10 exactly when it is one of 0-9 |
| HexCodec.DigitValueOfLowerDigit | main/main.cpp:121 | an upper-case letter, lower-cased, is still a digit and is worth the same |
| HexCodec.ParsePair | main/main.cpp:121 | the parsed pair is a byte whose high nibble is the first digit and whose low nibble is the second |
| HexCodec.VectorToHex | main/main.cpp:128-138 | the text is `HexEncode(data)`, has 2 \|data\| characters, all of them in 0-9a-f |
| HexCodec.NibbleChar | main/main.cpp:131-134 | the digit written for a nibble is lower-case and reads back as that nibble |
| HexCodec.HexEncodeAt | main/main.cpp:133-135 | characters 2k and 2k + 1 are the zero-padded high and low nibbles of byte k |
| HexCodec.HexEncodeIsLowerHex | main/main.cpp:131-134 | every character written is in 0-9a-f |
| HexCodec.HexEncodeAppend | main/main.cpp:133-135 | the text of a + b is the text of a followed by the text of b |
| HexCodec.ByteToHex | main/main.cpp:134 | a byte is written as two lower-case digits, the high nibble then the low nibble, that read back as the byte; a byte below 16 gets a leading '0' |
| HexCodec.ParsePairOfByteToHex | main/main.cpp:121-134 | parsing the two digits written for a byte gives the byte back |
| HexCodec.ByteToHexOfParsePair | main/main.cpp:121-134 | writing the byte a pair parses to gives back the pair in lower case |
| HexCodec.DecodePairsOfHexEncode | main/main.cpp:111-138 | for every byte sequence, the empty one included, decoding its text gives it back |
| HexCodec.HexDecodeOfHexEncode | main/main.cpp:111-138 | `fromHexString(vectorToHex(d))` succeeds with d |
| HexCodec.HexEncodeOfDecodePairs | main/main.cpp:111-138 | writing the decoded bytes of an even-length string of hex digits gives back the string with its letters in lower case |
| HexCodec.LowerCaseOfLowerHex | main/main.cpp:131-134 | text that is already lower-case hex is unchanged by lower-casing, so such text comes back exactly |

## Left out

- The `main()` argument parsing and mode dispatch (main/main.cpp:17-108) are left out. They are command-line glue.
- `writeStringToFile` (main/main.cpp:140-149) is left out. It is file I/O.
- The block-cipher modes, GCM, the inverse round functions and the AES-192/256 schedules are called from main/main.cpp but defined elsewhere. They are not part of this model. `AesSpec.InvShiftRows` is only a reference partner for ShiftRows.
- `SBox_consts` is declared in `libAES.h`, which is not part of this model. `SBoxConsts` is taken to be the table of Figure 7 of FIPS-197. Only its entries at 0x53, 0xcf, 0x4f, 0x3c and 0x09 are checked, against the standard's worked examples.
- HexCodec.FromHexString: an even-length input must consist of hex digits. The model leaves out how `stoi` treats other pairs: leading white space, a sign, a `0x` prefix, a partial parse, or the `invalid_argument` it throws when there is no digit.
- The `reserve` call (main/main.cpp:117) is left out. It only sets capacity.
- The unused `Gn` parameter of `calcRoundKey128` is dropped.
- LibAES.CalcRoundKey128 requires 1 <= round <= 10. The source would read `Rcon` out of bounds for any other round.
- LibAES.Rotate: the source also updates the caller's vector, which it takes by reference, to the returned value. The model only returns the value. Its only caller in libAES.cpp, `shiftRows`, assigns the result back to the same vector anyway.
- LibAES.CalcRoundKey128: its body is modelled as two methods:
  - `RoundTailOf`, for lines 102-109;
  - `CascadeTail`, for lines 111-117.

  Both run the source's loops, and they run in the source's order.
- The `vector<uint8_t>` arguments of the round primitives are arrays of at least 16 bytes. The source indexes bytes 0 .. 15 without checking. None of the methods changes the length.
- In `HexCodec`, a byte is an integer 0 .. 255 rather than a `bv8`, since the codec does arithmetic on digit values and no bit operations.
