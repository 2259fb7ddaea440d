/** Conversion between the 16 byte lanes of a 128-bit DRAM word and the four
    32-bit words of the Verilated payload (`pack_u32_words_from_bytes`,
    `unpack_bytes_from_u32_words`). Little-endian: byte 4k+j is bits
    8j..8j+7 of word k. The bytes of one word occupy disjoint bit ranges, so
    the C code's `|` of shifted bytes is their sum. */
module Packing {
  import opened Words

  /** One little-endian word from four bytes, least significant first. */
  function Word(b0: Byte, b1: Byte, b2: Byte, b3: Byte): U32
  {
    b0 + 0x100 * b1 + 0x1_0000 * b2 + 0x100_0000 * b3
  }

  /** `(v >> 8j) & 0xFF`. */
  function ByteOf(v: U32, j: nat): Byte
    requires j < 4
  {
    match j
    case 0 => v % 0x100
    case 1 => (v / 0x100) % 0x100
    case 2 => (v / 0x1_0000) % 0x100
    case 3 => v / 0x100_0000
  }

  /** `pack_u32_words_from_bytes`: byte j of word k is byte 4k+j of the block. */
  function Pack(bytes: seq<Byte>): (words: seq<U32>)
    requires |bytes| == 16
    ensures |words| == 4
    ensures forall k, j | 0 <= k < 4 && 0 <= j < 4 :: ByteOf(words[k], j) == bytes[4 * k + j]
  {
    var words := seq(4, k requires 0 <= k < 4 =>
      Word(bytes[4 * k], bytes[4 * k + 1], bytes[4 * k + 2], bytes[4 * k + 3]));
    assert forall k, j | 0 <= k < 4 && 0 <= j < 4 :: ByteOf(words[k], j) == bytes[4 * k + j] by {
      forall k | 0 <= k < 4 {
        WordLanes(bytes[4 * k], bytes[4 * k + 1], bytes[4 * k + 2], bytes[4 * k + 3]);
      }
    }
    words
  }

  /** `unpack_bytes_from_u32_words`: byte 4k+j of the block is bits 8j .. 8j+7
      of word k, so packing the bytes again gives the words back. */
  function Unpack(words: seq<U32>): (bytes: seq<Byte>)
    requires |words| == 4
    ensures |bytes| == 16
    ensures Pack(bytes) == words
  {
    var bytes := seq(16, i requires 0 <= i < 16 => ByteOf(words[i / 4], i % 4));
    Repack(words, bytes);
    bytes
  }

  /** The bytes of a word are recovered from it. */
  lemma WordLanes(b0: Byte, b1: Byte, b2: Byte, b3: Byte)
    ensures ByteOf(Word(b0, b1, b2, b3), 0) == b0
    ensures ByteOf(Word(b0, b1, b2, b3), 1) == b1
    ensures ByteOf(Word(b0, b1, b2, b3), 2) == b2
    ensures ByteOf(Word(b0, b1, b2, b3), 3) == b3
  {
    var v := Word(b0, b1, b2, b3);
    DivMod(v, 0x100, b1 + 0x100 * b2 + 0x1_0000 * b3, b0);
    DivMod(v, 0x1_0000, b2 + 0x100 * b3, b0 + 0x100 * b1);
    DivMod(v, 0x100_0000, b3, b0 + 0x100 * b1 + 0x1_0000 * b2);
    DivMod(b1 + 0x100 * b2 + 0x1_0000 * b3, 0x100, b2 + 0x100 * b3, b1);
    DivMod(b2 + 0x100 * b3, 0x100, b3, b2);
  }

  /** A word is the sum of its bytes at their weights. */
  lemma BytesWord(v: U32)
    ensures Word(ByteOf(v, 0), ByteOf(v, 1), ByteOf(v, 2), ByteOf(v, 3)) == v
  {
    var q1, q2 := v / 0x100, v / 0x1_0000;
    assert v == v % 0x100 + 0x100 * q1;
    assert q1 == q1 % 0x100 + 0x100 * (q1 / 0x100);
    assert q1 / 0x100 == q2;
    assert q2 == q2 % 0x100 + 0x100 * (q2 / 0x100);
    assert q2 / 0x100 == v / 0x100_0000;
  }

  /** Packing the bytes of four words, laid out as `Unpack` lays them out, gives the words back. */
  lemma Repack(words: seq<U32>, bytes: seq<Byte>)
    requires |words| == 4 && |bytes| == 16
    requires forall i | 0 <= i < 16 :: bytes[i] == ByteOf(words[i / 4], i % 4)
    ensures Pack(bytes) == words
  {
    forall k | 0 <= k < 4
      ensures Pack(bytes)[k] == words[k]
    {
      RepackWord(words, bytes, k);
    }
  }

  /** Word k is rebuilt from bytes 4k .. 4k+3. */
  lemma RepackWord(words: seq<U32>, bytes: seq<Byte>, k: nat)
    requires |words| == 4 && |bytes| == 16 && k < 4
    requires forall i | 0 <= i < 16 :: bytes[i] == ByteOf(words[i / 4], i % 4)
    ensures Word(bytes[4 * k], bytes[4 * k + 1], bytes[4 * k + 2], bytes[4 * k + 3]) == words[k]
  {
    assert bytes[4 * k] == ByteOf(words[k], 0);
    assert bytes[4 * k + 1] == ByteOf(words[k], 1);
    assert bytes[4 * k + 2] == ByteOf(words[k], 2);
    assert bytes[4 * k + 3] == ByteOf(words[k], 3);
    BytesWord(words[k]);
  }

  /** Unpacking a packed block gives the block back. */
  lemma UnpackPack(bytes: seq<Byte>)
    requires |bytes| == 16
    ensures Unpack(Pack(bytes)) == bytes
  {
    forall k | 0 <= k < 4 {
      WordLanes(bytes[4 * k], bytes[4 * k + 1], bytes[4 * k + 2], bytes[4 * k + 3]);
    }
  }
}
