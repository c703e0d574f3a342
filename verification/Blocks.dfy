/** Disk blocks: BSIZE bytes. The kernel reads a block either as bytes or, by casting
    bp->data, as an array of little-endian 32-bit words; the words are kept and the bytes derived. */
module Blocks {

  const BSIZE: nat := 512
  const NWORDS: nat := 128     // BSIZE / sizeof(uint)

  type Byte = x: int | 0 <= x < 0x100
  type Word = x: int | 0 <= x < 0x1_0000_0000
  type Block = b: seq<Word> | |b| == 128 witness seq(128, _ => 0)

  datatype Option<+T> = None | Some(value: T)

  /** What bzero leaves in a block. */
  function ZeroBlock(): (b: Block)
    ensures forall i :: 0 <= i < NWORDS ==> b[i] == 0
  {
    seq(128, _ => 0)
  }

  function WordByte(w: Word, k: nat): Byte
    requires k < 4
  {
    if k == 0 then w % 0x100
    else if k == 1 then w / 0x100 % 0x100
    else if k == 2 then w / 0x100 / 0x100 % 0x100
    else w / 0x100 / 0x100 / 0x100
  }

  function MakeWord(b0: int, b1: int, b2: int, b3: int): int {
    b0 + 0x100 * (b1 + 0x100 * (b2 + 0x100 * b3))
  }

  lemma WordOfBytes(b0: Byte, b1: Byte, b2: Byte, b3: Byte)
    ensures var w := MakeWord(b0, b1, b2, b3);
            && 0 <= w < 0x1_0000_0000
            && WordByte(w, 0) == b0 && WordByte(w, 1) == b1 && WordByte(w, 2) == b2 && WordByte(w, 3) == b3
  {
    LowByte(b2, b3);
    LowByte(b1, b2 + 0x100 * b3);
    LowByte(b0, b1 + 0x100 * (b2 + 0x100 * b3));
  }

  lemma LowByte(b: Byte, x: nat)
    ensures (b + 0x100 * x) % 0x100 == b && (b + 0x100 * x) / 0x100 == x
  {
  }

  /** The block as bp->data[0..BSIZE]. */
  function Bytes(b: Block): (s: seq<Byte>)
    ensures |s| == BSIZE
  {
    seq(BSIZE, i requires 0 <= i < BSIZE => WordByte(b[i / 4], i % 4))
  }

  /** The block holding the given bytes. */
  function Pack(s: seq<Byte>): (b: Block)
    requires |s| == BSIZE
    ensures Bytes(b) == s
  {
    var b := seq(NWORDS, i requires 0 <= i < NWORDS =>
      WordOfBytes(s[4 * i], s[4 * i + 1], s[4 * i + 2], s[4 * i + 3]);
      MakeWord(s[4 * i], s[4 * i + 1], s[4 * i + 2], s[4 * i + 3]) as Word);
    assert Bytes(b) == s by {
      forall i | 0 <= i < BSIZE
        ensures Bytes(b)[i] == s[i]
      {
        var j := i / 4;
        WordOfBytes(s[4 * j], s[4 * j + 1], s[4 * j + 2], s[4 * j + 3]);
      }
    }
    b
  }
}
