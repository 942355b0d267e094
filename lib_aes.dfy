/**
 * The round primitives of libAES as they are written.
 *
 * `SBox`, `ShiftRows`, `MixColumns`, `AddRoundKey` and `CalcRoundKey128`
 * update the caller's 16-byte block (or key) in place, one byte or one row at
 * a time. Each is proved to leave the first 16 bytes equal to the matching
 * function of `AesSpec` applied to the bytes it was given, and to leave any
 * bytes past the first 16 alone.
 *
 * The other methods are pieces of those. `Rotate` works on a sequence value.
 * `MixedEntry` computes one byte of `mixColumns` and writes nothing.
 * `calcRoundKey128` is split in two: `RoundTailOf` computes the tail and
 * writes nothing, and `CascadeTail` XORs it through the key array.
 */
module LibAES {
  import opened SBoxTable
  import opened GaloisField
  import AesSpec

  /** libAES::sBox: every one of the first 16 bytes is looked up in the S-box. */
  method SBox(block: array<bv8>)
    requires block.Length >= 16
    modifies block
    ensures block[..16] == AesSpec.SubBytes(old(block[..16]))
    ensures block[16..] == old(block[16..])
  {
    ghost var s := old(block[..16]);
    for i := 0 to 16
      invariant forall j :: 0 <= j < i ==> block[j] == Sub(s[j])
      invariant forall j :: i <= j < 16 ==> block[j] == s[j]
      invariant forall j :: 16 <= j < block.Length ==> block[j] == old(block[j])
    {
      assert block[i] == s[i];
      SubOfEqualBytes(block[i], s[i]);
      block[i] := Sub(block[i]);
    }
    SubBytesOfBytes(s, block[..16]);
  }

  lemma SubOfEqualBytes(x: bv8, y: bv8)
    requires x == y
    ensures Sub(x) == Sub(y)
  {
  }

  /** A state holding the S-box entry of every byte of `s` is SubBytes of `s`. */
  lemma SubBytesOfBytes(s: AesSpec.State, t: seq<bv8>)
    requires |t| == 16
    requires forall j :: 0 <= j < 16 ==> t[j] == Sub(s[j])
    ensures t == AesSpec.SubBytes(s)
  {
  }

  /**
   * libAES::rotate: `numRots` times, the front element is erased and pushed onto
   * the back; a count of zero or less leaves the sequence as it is.
   */
  method Rotate(subBlock: seq<bv8>, numRots: int) returns (rotated: seq<bv8>)
    requires numRots > 0 ==> |subBlock| > 0
    ensures rotated == AesSpec.RotateLeft(subBlock, if numRots > 0 then numRots else 0)
  {
    rotated := subBlock;
    var i := 0;
    while i < numRots
      invariant 0 <= i <= (if numRots > 0 then numRots else 0)
      invariant rotated == AesSpec.RotateLeft(subBlock, i)
    {
      var front := rotated[0];
      rotated := rotated[1..];
      rotated := rotated + [front];
      i := i + 1;
    }
  }

  /**
   * libAES::shiftRows: rows 1, 2 and 3 are gathered into a four-byte vector,
   * rotated left by their row number and written back; row 0 is not touched.
   */
  method ShiftRows(block: array<bv8>)
    requires block.Length >= 16
    modifies block
    ensures block[..16] == AesSpec.ShiftRows(old(block[..16]))
    ensures block[16..] == old(block[16..])
  {
    ghost var s := old(block[..16]);
    for i := 1 to 4
      invariant forall r :: 0 <= r < i ==> AesSpec.Row(block[..16], r) == AesSpec.RotateLeft(AesSpec.Row(s, r), r)
      invariant forall r :: i <= r < 4 ==> AesSpec.Row(block[..16], r) == AesSpec.Row(s, r)
      invariant forall j :: 16 <= j < block.Length ==> block[j] == old(block[j])
    {
      ghost var before := block[..16];
      var subBlock := [block[i], block[i + 4], block[i + 8], block[i + 12]];
      assert subBlock == AesSpec.Row(before, i);
      subBlock := Rotate(subBlock, i);
      block[i] := subBlock[0];
      block[i + 4] := subBlock[1];
      block[i + 8] := subBlock[2];
      block[i + 12] := subBlock[3];
      WriteBackRow(before, block[..16], i, subBlock);
    }
    AesSpec.ShiftRowsOfRows(s, block[..16]);
  }

  /** Writing a word into row i of a state replaces that row and keeps every other row. */
  lemma WriteBackRow(before: AesSpec.State, after: seq<bv8>, i: nat, w: seq<bv8>)
    requires 0 <= i < 4 && |w| == 4 && |after| == 16
    requires after == before[i := w[0]][i + 4 := w[1]][i + 8 := w[2]][i + 12 := w[3]]
    ensures AesSpec.Row(after, i) == w
    ensures forall r :: 0 <= r < 4 && r != i ==> AesSpec.Row(after, r) == AesSpec.Row(before, r)
  {
  }

  /**
   * libAES::mixColumns: the block is copied and every byte col * 4 + row is
   * overwritten with the dot product of matrix row `row` and column `col` of the
   * copy.
   */
  method MixColumns(block: array<bv8>)
    requires block.Length >= 16
    modifies block
    ensures block[..16] == AesSpec.MixColumns(old(block[..16]))
    ensures block[16..] == old(block[16..])
  {
    var tempBlock := block[..];
    ghost var s := old(block[..16]);
    for col := 0 to 4
      invariant forall c :: 0 <= c < col ==> AesSpec.Column(block[..16], c) == AesSpec.MixColumn(AesSpec.Column(s, c))
      invariant forall j :: 4 * col <= j < block.Length ==> block[j] == old(block[j])
    {
      ghost var before := block[..16];
      for row := 0 to 4
        invariant forall r :: 0 <= r < row ==> block[col * 4 + r] == AesSpec.MixColumn(AesSpec.Column(s, col))[r]
        invariant forall j :: 0 <= j < 4 * col ==> block[j] == before[j]
        invariant forall j :: 4 * col + row <= j < block.Length ==> block[j] == old(block[j])
      {
        var entry := MixedEntry(tempBlock, col, row);
        block[col * 4 + row] := entry;
      }
      WriteBackColumn(before, block[..16], col, AesSpec.MixColumn(AesSpec.Column(s, col)));
    }
    AesSpec.MixColumnsOfColumns(s, block[..16]);
  }

  /**
   * One byte of the loop body, computed with `gfMult`: entry `row` of the
   * column mix of column `col` of the copy, which is also entry `row` of the
   * FIPS-197 matrix product over GF(2^8) of that column.
   */
  method MixedEntry(temp: seq<bv8>, col: nat, row: nat) returns (entry: bv8)
    requires col < 4 && row < 4 && |temp| >= 16
    ensures entry == AesSpec.MixColumn(AesSpec.Column(temp[..16], col))[row]
    ensures entry == AesSpec.FipsMixColumn(AesSpec.Column(temp[..16], col))[row]
  {
    entry := AesSpec.MixedByte(temp[col * 4 .. col * 4 + 4], AesSpec.MixMatrix[row]);
    AesSpec.MixColumnAt(AesSpec.Column(temp[..16], col), row);
    assert temp[col * 4 .. col * 4 + 4] == AesSpec.Column(temp[..16], col);
    AesSpec.MixColumnIsFipsMix(AesSpec.Column(temp[..16], col));
  }

  /** A state that has `w` at bytes 4c .. 4c + 3 and agrees with `before` below 4c has column c equal to `w`. */
  lemma WriteBackColumn(before: AesSpec.State, after: seq<bv8>, c: nat, w: AesSpec.Word)
    requires c < 4 && |after| == 16
    requires forall r :: 0 <= r < 4 ==> after[c * 4 + r] == w[r]
    requires forall j :: 0 <= j < 4 * c ==> after[j] == before[j]
    ensures AesSpec.Column(after, c) == w
    ensures forall c' :: 0 <= c' < c ==> AesSpec.Column(after, c') == AesSpec.Column(before, c')
  {
    forall r | 0 <= r < 4
      ensures AesSpec.Column(after, c)[r] == w[r]
    {
      AesSpec.ColumnAt(after, c, r);
    }
    forall c' | 0 <= c' < c
      ensures AesSpec.Column(after, c') == AesSpec.Column(before, c')
    {
      forall r | 0 <= r < 4
        ensures AesSpec.Column(after, c')[r] == AesSpec.Column(before, c')[r]
      {
        AesSpec.ColumnAt(after, c', r);
        AesSpec.ColumnAt(before, c', r);
      }
    }
  }

  /**
   * libAES::addRoundKey: each of the first 16 bytes is XORed with the key byte
   * at the same index. Byte i is read from both arrays before it is written, so
   * the result is the same when `key` is `block` itself.
   */
  method AddRoundKey(block: array<bv8>, key: array<bv8>)
    requires block.Length >= 16 && key.Length >= 16
    modifies block
    ensures block[..16] == AesSpec.AddRoundKey(old(block[..16]), old(key[..16]))
    ensures block[16..] == old(block[16..])
  {
    for i := 0 to 16
      invariant forall j :: 0 <= j < i ==> block[j] == old(block[j]) ^ old(key[j])
      invariant forall j :: i <= j < block.Length ==> block[j] == old(block[j])
      invariant forall j :: i <= j < key.Length ==> key[j] == old(key[j])
    {
      block[i] := block[i] ^ key[i];
    }
  }

  /**
   * libAES::calcRoundKey128: turns the AES-128 round key `key` into the key of
   * round `round` in place and returns the tail word XORed into its first word.
   */
  method CalcRoundKey128(key: array<bv8>, round: int) returns (tail: seq<bv8>)
    requires key.Length >= 16 && 1 <= round <= 10
    modifies key
    ensures tail == AesSpec.RoundTail(old(key[..16]), round)
    ensures key[..16] == AesSpec.NextRoundKey(old(key[..16]), round)
    ensures key[16..] == old(key[16..])
  {
    tail := RoundTailOf(key, round);
    CascadeTail(key, tail);
  }

  /**
   * The tail of libAES::calcRoundKey128: bytes 13, 14, 15 and 12 of the key are
   * gathered, each is replaced by its S-box entry, and the round constant is
   * XORed into the first.
   */
  method RoundTailOf(key: array<bv8>, round: int) returns (tail: seq<bv8>)
    requires key.Length >= 16 && 1 <= round <= 10
    ensures tail == AesSpec.RoundTail(key[..16], round)
  {
    ghost var k := key[..16];
    tail := [key[13], key[14], key[15], key[12]];
    ghost var gathered := tail;
    assert gathered == AesSpec.RotWord(AesSpec.Column(k, 3));
    for i := 0 to 4
      invariant |tail| == 4
      invariant forall j :: 0 <= j < i ==> tail[j] == Sub(gathered[j])
      invariant forall j :: i <= j < 4 ==> tail[j] == gathered[j]
    {
      tail := tail[i := Sub(tail[i])];
    }
    SubWordOfBytes(gathered, tail);
    tail := tail[0 := tail[0] ^ AesSpec.Rcon[round - 1]];
    TailIsRoundTail(k, round, tail);
  }

  /**
   * The XOR cascade of libAES::calcRoundKey128: bytes 0 .. 3 are XORed with
   * the tail, then every byte i from 4 on with the already-updated byte i - 4.
   */
  method CascadeTail(key: array<bv8>, tail: seq<bv8>)
    requires key.Length >= 16 && |tail| == 4
    modifies key
    ensures key[..16] == AesSpec.CascadeWords(old(key[..16]), tail)
    ensures key[16..] == old(key[16..])
  {
    ghost var k := old(key[..16]);
    for i := 0 to 4
      invariant forall j :: 0 <= j < i ==> key[j] == k[j] ^ tail[j]
      invariant forall j :: i <= j < key.Length ==> key[j] == old(key[j])
    {
      key[i] := key[i] ^ tail[i];
    }

    for i := 4 to 16
      invariant forall j {:trigger key[j]} :: 0 <= j < i ==> key[j] == k[j] ^ (if j < 4 then tail[j] else key[j - 4])
      invariant forall j :: i <= j < key.Length ==> key[j] == old(key[j])
    {
      key[i] := key[i] ^ key[i - 4];
    }
    AesSpec.CascadeWordsOfBytes(k, tail, key[..16]);
  }

  /** A word holding the S-box entry of every byte of `w` is SubWord of `w`. */
  lemma SubWordOfBytes(w: AesSpec.Word, t: seq<bv8>)
    requires |t| == 4
    requires forall j :: 0 <= j < 4 ==> t[j] == Sub(w[j])
    ensures t == AesSpec.SubWord(w)
  {
  }

  /** Substituting the rotated last word and XORing Rcon into its first byte gives the tail of the round-key step. */
  lemma TailIsRoundTail(k: AesSpec.State, round: int, tail: seq<bv8>)
    requires 1 <= round <= 10
    requires |tail| == 4
    requires tail == AesSpec.SubWord(AesSpec.RotWord(AesSpec.Column(k, 3)))[0 := AesSpec.SubWord(AesSpec.RotWord(AesSpec.Column(k, 3)))[0] ^ AesSpec.Rcon[round - 1]]
    ensures tail == AesSpec.RoundTail(k, round)
  {
    AesSpec.RoundTailIsRotSubRcon(k, round);
    XorRconWord(AesSpec.SubWord(AesSpec.RotWord(AesSpec.Column(k, 3))), round);
  }

  /** XORing a word with the round constant word changes only its first byte. */
  lemma XorRconWord(w: AesSpec.Word, round: int)
    requires 1 <= round <= 10
    ensures AesSpec.XorWord(w, AesSpec.RconWord(round)) == w[0 := w[0] ^ AesSpec.Rcon[round - 1]]
  {
    XorFirstByte(w, AesSpec.Rcon[round - 1]);
  }

  lemma XorFirstByte(w: AesSpec.Word, x: bv8)
    ensures AesSpec.XorWord(w, AesSpec.FirstByteWord(x)) == w[0 := w[0] ^ x]
  {
  }
}
