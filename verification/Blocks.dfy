/** Disk blocks as bytes, with the 32-bit words and the bits that the kernel keeps in them. */
module Blocks {
  import opened Counting

  const BSIZE: nat := 2048
  const WORDS: nat := 512

  type byte = x: int | 0 <= x < 256
  type word = x: int | 0 <= x < 0x1_0000_0000

  type Block = b: seq<byte> | |b| == BSIZE witness seq(BSIZE, i => 0)

  type Disk = seq<Block>

  function Zeros(): Block {
    seq(BSIZE, i => 0)
  }

  /** The i-th little-endian word of a block: `((uint*)data)[i]`. */
  function Word(b: Block, i: nat): word
    requires i < WORDS
  {
    b[4 * i] as int + 0x100 * b[4 * i + 1] as int + 0x1_0000 * b[4 * i + 2] as int + 0x100_0000 * b[4 * i + 3] as int
  }

  lemma Digits(v: word)
    ensures v == v % 0x100 + 0x100 * (v / 0x100 % 0x100) + 0x1_0000 * (v / 0x1_0000 % 0x100)
                 + 0x100_0000 * (v / 0x100_0000)
  {
    assert v / 0x1_0000 == v / 0x100 / 0x100 && v / 0x100_0000 == v / 0x100 / 0x100 / 0x100;
  }

  function PutBytes(b: Block, i: nat, b0: byte, b1: byte, b2: byte, b3: byte): (r: Block)
    requires i < WORDS
    ensures Word(r, i) == b0 as int + 0x100 * b1 as int + 0x1_0000 * b2 as int + 0x100_0000 * b3 as int
    ensures forall j :: 0 <= j < WORDS && j != i ==> Word(r, j) == Word(b, j)
  {
    b[4 * i := b0][4 * i + 1 := b1][4 * i + 2 := b2][4 * i + 3 := b3]
  }

  /** Storing a word changes that word and no other. */
  function PutWord(b: Block, i: nat, v: word): (r: Block)
    requires i < WORDS
    ensures Word(r, i) == v
    ensures forall j :: 0 <= j < WORDS && j != i ==> Word(r, j) == Word(b, j)
  {
    Digits(v);
    PutBytes(b, i, v % 0x100, v / 0x100 % 0x100, v / 0x1_0000 % 0x100, v / 0x100_0000)
  }

  lemma ZerosAreZero(i: nat)
    requires i < WORDS
    ensures Word(Zeros(), i) == 0
  {
  }

  /** The `n` low bits of a number, lowest first. */
  function Bits(x: nat, n: nat): (bits: seq<bool>)
    ensures |bits| == n
  {
    if n == 0 then [] else [x % 2 == 1] + Bits(x / 2, n - 1)
  }

  function Value(bits: seq<bool>): nat {
    if bits == [] then 0 else (if bits[0] then 1 else 0) + 2 * Value(bits[1..])
  }

  lemma {:induction false} BitsOfValue(bits: seq<bool>)
    ensures Bits(Value(bits), |bits|) == bits
  {
    if bits != [] {
      BitsOfValue(bits[1..]);
    }
  }

  lemma {:induction false} ValueBound(bits: seq<bool>)
    ensures Value(bits) < Power(2, |bits|)
  {
    if bits != [] {
      ValueBound(bits[1..]);
    }
  }

  /** `(x & (1 << k)) != 0`. */
  predicate HasBit(x: byte, k: nat)
    requires k < 8
  {
    Bits(x, 8)[k]
  }

  /** `x | (1 << k)` when `on`, `x & ~(1 << k)` otherwise: one bit changes. */
  function PutBit(x: byte, k: nat, on: bool): (y: byte)
    requires k < 8
    ensures HasBit(y, k) == on
    ensures forall j :: 0 <= j < 8 && j != k ==> HasBit(y, j) == HasBit(x, j)
  {
    var bits := Bits(x, 8)[k := on];
    BitsOfValue(bits);
    ValueBound(bits);
    assert Power(2, 8) == 256;
    Value(bits)
  }
}
