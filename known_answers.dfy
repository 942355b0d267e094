/**
 * Known answers from FIPS-197, checked against the spec functions: they tie
 * the S-box table, the MixColumns matrix, Rcon and the word cascade of the
 * key step to the worked examples of the standard.
 */
module KnownAnswers {
  import opened SBoxTable
  import opened AesSpec
  import LibAES

  /** The cipher key of Appendix A.1 of FIPS-197. */
  const CipherKey: State := [0x2b, 0x7e, 0x15, 0x16, 0x28, 0xae, 0xd2, 0xa6, 0xab, 0xf7, 0x15, 0x88, 0x09, 0xcf, 0x4f, 0x3c]

  /** Words w[4] .. w[7] of the expansion in Appendix A.1: the round key of round 1. */
  const RoundKey1: State := [0xa0, 0xfa, 0xfe, 0x17, 0x88, 0x54, 0x2c, 0xb1, 0x23, 0xa3, 0x39, 0x39, 0x2a, 0x6c, 0x76, 0x05]

  /** The S-box example of section 5.1.1: the entry for 0x53 is 0xed. */
  lemma SubOf53()
    ensures Sub(0x53) == 0xed
  {
  }

  /** Column 0 of round 1 in Appendix B: d4 bf 5d 30 mixes to 04 66 81 e5. */
  lemma MixColumnOfRound1()
    ensures MixColumn([0xd4, 0xbf, 0x5d, 0x30]) == [0x04, 0x66, 0x81, 0xe5]
  {
  }

  /** Row i = 4 of the expansion table of Appendix A.1: temp = 09cf4f3c becomes 8b84eb01. */
  lemma TailOfRound1()
    ensures XorWord(SubWord(RotWord([0x09, 0xcf, 0x4f, 0x3c])), RconWord(1)) == [0x8b, 0x84, 0xeb, 0x01]
  {
    RotWordOfRound1();
    SubWordOfRound1();
  }

  /** The "After RotWord" column of Appendix A.1 at i = 4. */
  lemma RotWordOfRound1()
    ensures RotWord([0x09, 0xcf, 0x4f, 0x3c]) == [0xcf, 0x4f, 0x3c, 0x09]
  {
  }

  /** The "After SubWord" column of Appendix A.1 at i = 4. */
  lemma SubWordOfRound1()
    ensures SubWord([0xcf, 0x4f, 0x3c, 0x09]) == [0x8a, 0x84, 0xeb, 0x01]
  {
    SubstitutionsOfRound1();
    LibAES.SubWordOfBytes([0xcf, 0x4f, 0x3c, 0x09], [0x8a, 0x84, 0xeb, 0x01]);
  }

  lemma SubstitutionsOfRound1()
    ensures Sub(0xcf) == 0x8a && Sub(0x4f) == 0x84 && Sub(0x3c) == 0xeb && Sub(0x09) == 0x01
  {
  }

  /** Rows i = 4 .. 7 of Appendix A.1: each word is the key word XORed with the tail or the new word before it. */
  lemma CascadeOfRound1()
    ensures CascadeWords(CipherKey, [0x8b, 0x84, 0xeb, 0x01]) == RoundKey1
  {
    ColumnsOfCipherKey();
    WordsOfRound1();
    assert FromColumns([0xa0, 0xfa, 0xfe, 0x17], [0x88, 0x54, 0x2c, 0xb1], [0x23, 0xa3, 0x39, 0x39], [0x2a, 0x6c, 0x76, 0x05]) == RoundKey1;
  }

  lemma ColumnsOfCipherKey()
    ensures Column(CipherKey, 0) == [0x2b, 0x7e, 0x15, 0x16]
    ensures Column(CipherKey, 1) == [0x28, 0xae, 0xd2, 0xa6]
    ensures Column(CipherKey, 2) == [0xab, 0xf7, 0x15, 0x88]
    ensures Column(CipherKey, 3) == [0x09, 0xcf, 0x4f, 0x3c]
  {
  }

  lemma WordsOfRound1()
    ensures XorWord([0x2b, 0x7e, 0x15, 0x16], [0x8b, 0x84, 0xeb, 0x01]) == [0xa0, 0xfa, 0xfe, 0x17]
    ensures XorWord([0x28, 0xae, 0xd2, 0xa6], [0xa0, 0xfa, 0xfe, 0x17]) == [0x88, 0x54, 0x2c, 0xb1]
    ensures XorWord([0xab, 0xf7, 0x15, 0x88], [0x88, 0x54, 0x2c, 0xb1]) == [0x23, 0xa3, 0x39, 0x39]
    ensures XorWord([0x09, 0xcf, 0x4f, 0x3c], [0x23, 0xa3, 0x39, 0x39]) == [0x2a, 0x6c, 0x76, 0x05]
  {
  }

  /** The first key step turns the cipher key of Appendix A.1 into its round key 1. */
  lemma NextRoundKeyOfRound1()
    ensures NextRoundKey(CipherKey, 1) == RoundKey1
  {
    ColumnsOfCipherKey();
    RoundTailIsRotSubRcon(CipherKey, 1);
    TailOfRound1();
    CascadeOfRound1();
  }
}
