/** The one's-complement sum of RFC 1071: Duff's device, the fold, and what the checksum protects. */
module Checksum {

  type Byte = x: nat | x < 256

  const IP_LEN_MAX: nat := 65535

  /** Two bytes in memory order as a 16-bit word of the host. */
  function Word(big: bool, first: Byte, second: Byte): nat {
    if big then 256 * first + second else first + 256 * second
  }

  /** The plain left-to-right sum of the first n words. */
  function SumWords(big: bool, mem: seq<Byte>, n: nat): nat
    requires 2 * n <= |mem|
  {
    if n == 0 then 0 else SumWords(big, mem, n - 1) + Word(big, mem[2 * n - 2], mem[2 * n - 1])
  }

  /** A last odd byte counts as a word with a zero byte after it. */
  function Total(big: bool, mem: seq<Byte>, len: nat): nat
    requires len <= |mem|
  {
    SumWords(big, mem, len / 2) + if len % 2 == 1 then Word(big, mem[len - 1], 0) else 0
  }

  // ----- ip_cksum_add

  /** The number of words the unrolled loop reads: a count of zero enters it at the top and runs it once. */
  function WordsRead(len: nat): (r: nat)
    ensures r == len / 2 <==> len >= 2
  {
    if len / 2 == 0 then 16 else len / 2
  }

  /** htons(b << 8) */
  function OddByte(big: bool, b: Byte): nat {
    if big then 256 * b else b
  }

  method AddWords(big: bool, mem: seq<Byte>, len: nat, cksum: int) returns (sum: int)
    requires 2 * WordsRead(len) + len % 2 <= |mem|
    ensures sum == cksum + SumWords(big, mem, WordsRead(len))
                   + if len % 2 == 1 then OddByte(big, mem[2 * WordsRead(len)]) else 0
    ensures len >= 2 ==> sum == cksum + Total(big, mem, len)
  {
    sum := cksum;
    var sn := len / 2;
    var n := (sn + 15) / 16;
    var sp := 0;
    // The switch jumps into the body so that sn % 16 additions are left in the first pass.
    var left := if sn % 16 == 0 then 16 else sn % 16;
    var again := true;
    while again
      invariant again ==> 1 <= left <= 16 && sp + left + 16 * (if n > 1 then n - 1 else 0) == WordsRead(len)
      invariant !again ==> sp == WordsRead(len)
      invariant sp <= WordsRead(len)
      invariant sum == cksum + SumWords(big, mem, sp)
      decreases again, n
    {
      while left > 0
        invariant 0 <= left <= 16 && sp + left + 16 * (if n > 1 then n - 1 else 0) == WordsRead(len)
        invariant sum == cksum + SumWords(big, mem, sp)
      {
        sum := sum + Word(big, mem[2 * sp], mem[2 * sp + 1]);
        sp := sp + 1;
        left := left - 1;
      }
      n := n - 1;
      left := 16;
      again := n > 0;
    }
    if len % 2 == 1 {
      sum := sum + OddByte(big, mem[2 * sp]);
    }
  }

  lemma {:induction false} SumWordsBound(big: bool, mem: seq<Byte>, n: nat)
    requires 2 * n <= |mem|
    ensures SumWords(big, mem, n) <= 65535 * n
  {
    if n > 0 {
      SumWordsBound(big, mem, n - 1);
    }
  }

  /** No buffer of legal length overflows a 32-bit int. */
  lemma TotalFitsInt(big: bool, mem: seq<Byte>, len: nat)
    requires len <= |mem| && len <= 65535
    ensures Total(big, mem, len) < 0x8000_0000
  {
    SumWordsBound(big, mem, len / 2);
  }

  // ----- ip_cksum_carry

  /** Shifts and masks of a 32-bit int; Dafny's quotient by a positive number is the arithmetic shift. */
  function Carry(x: int): (r: nat)
    ensures r < 65536
  {
    var y := x / 65536 + x % 65536;
    65535 - (y + y / 65536) % 65536
  }

  /** For every int the complement of the result is congruent to it modulo 65535. */
  lemma CarryCongruent(x: int)
    requires -0x8000_0000 <= x < 0x8000_0000
    ensures (65535 - Carry(x)) % 65535 == x % 65535
  {
    CarryFolds(x);
    var h, y := x / 65536, x / 65536 + x % 65536;
    ModShift(65535 - Carry(x), if y < 0 then h - 1 else if y < 65536 then h else h + 1);
  }

  /** Adding the high half to the low half, twice, leaves 16 bits. */
  lemma CarryFolds(x: int)
    requires -0x8000_0000 <= x < 0x8000_0000
    ensures var h := x / 65536;
            var y := h + x % 65536;
            && x == 65535 * h + y
            && 65535 - Carry(x) == (if y < 0 then y + 65535 else if y < 65536 then y else y - 65535)
  {
  }

  lemma ModShift(a: int, k: int)
    ensures (a + 65535 * k) % 65535 == a % 65535
  {
  }

  /** A sum verifies exactly when it is a positive multiple of 65535. */
  lemma CarryZeroExactly(x: int)
    requires -0x8000_0000 <= x < 0x8000_0000
    ensures Carry(x) == 0 <==> x > 0 && x % 65535 == 0
  {
    CarryCongruent(x);
    CarryFolds(x);
  }

  /** Filling a zeroed checksum word with the computed checksum makes the buffer verify. */
  lemma StoredChecksumVerifies(sum: nat)
    requires sum + Carry(sum) < 0x8000_0000
    ensures Carry(sum + Carry(sum)) == 0
  {
    CarryCongruent(sum);
    CarryZeroExactly(sum + Carry(sum));
    CarryZeroExactly(sum);
    hide Carry;
    SumsToMultiple(sum, Carry(sum));
  }

  lemma SumsToMultiple(x: nat, c: nat)
    requires c <= 65535 && (65535 - c) % 65535 == x % 65535
    ensures (x + c) % 65535 == 0
  {
  }

  // ----- Changing one byte

  /** How much a byte at position i weighs in the sum. */
  function Weight(big: bool, i: nat): nat {
    if (i % 2 == 0) == big then 256 else 1
  }

  lemma {:induction false} SumWordsChange(big: bool, mem: seq<Byte>, i: nat, b: Byte, n: nat)
    requires 2 * n <= |mem| && i < |mem|
    ensures SumWords(big, mem[i := b], n)
            == SumWords(big, mem, n) + if i < 2 * n then Weight(big, i) * (b - mem[i]) else 0
  {
    if n > 0 {
      SumWordsChange(big, mem, i, b, n - 1);
    }
  }

  lemma TotalChange(big: bool, mem: seq<Byte>, len: nat, i: nat, b: Byte)
    requires i < len <= |mem|
    ensures Total(big, mem[i := b], len) == Total(big, mem, len) + Weight(big, i) * (b - mem[i])
  {
    SumWordsChange(big, mem, i, b, len / 2);
  }

  /** The effect of replacing both bytes of word p. */
  lemma WordChange(big: bool, mem: seq<Byte>, len: nat, p: nat, b1: Byte, b2: Byte)
    requires len <= |mem| && p < len / 2
    ensures Total(big, mem[2 * p := b1][2 * p + 1 := b2], len)
            == Total(big, mem, len) + Word(big, b1, b2) - Word(big, mem[2 * p], mem[2 * p + 1])
  {
    hide Total;
    TotalChange(big, mem, len, 2 * p, b1);
    TotalChange(big, mem[2 * p := b1], len, 2 * p + 1, b2);
  }

  /** The bytes of a 16-bit value in host order. */
  function FirstByte(big: bool, w: nat): Byte
    requires w < 65536
  {
    if big then w / 256 else w % 256
  }

  function SecondByte(big: bool, w: nat): Byte
    requires w < 65536
  {
    if big then w % 256 else w / 256
  }

  /** The buffer with its checksum stored in word p. */
  function Sealed(big: bool, mem: seq<Byte>, len: nat, p: nat): seq<Byte>
    requires 2 <= len <= |mem| && p < len / 2
  {
    var ck := Carry(Total(big, mem, len));
    mem[2 * p := FirstByte(big, ck)][2 * p + 1 := SecondByte(big, ck)]
  }

  /** Storing the checksum computed over a zeroed, aligned field makes the receiver's sum fold to zero. */
  lemma SealedVerifies(big: bool, mem: seq<Byte>, len: nat, p: nat)
    requires 2 <= len <= |mem| && len <= IP_LEN_MAX && p < len / 2
    requires mem[2 * p] == 0 && mem[2 * p + 1] == 0
    ensures Carry(Total(big, Sealed(big, mem, len, p), len)) == 0
  {
    var ck := Carry(Total(big, mem, len));
    WordChange(big, mem, len, p, FirstByte(big, ck), SecondByte(big, ck));
    TotalFitsInt(big, Sealed(big, mem, len, p), len);
    hide Total, Carry;
    StoredChecksumVerifies(Total(big, mem, len));
  }

  /** Any change to a single byte of a buffer that verifies is detected. */
  lemma SingleByteErrorDetected(big: bool, mem: seq<Byte>, len: nat, i: nat, b: Byte)
    requires i < len <= |mem| && len <= IP_LEN_MAX && b != mem[i]
    requires Carry(Total(big, mem, len)) == 0
    ensures Carry(Total(big, mem[i := b], len)) != 0
  {
    TotalFitsInt(big, mem, len);
    TotalFitsInt(big, mem[i := b], len);
    CarryZeroExactly(Total(big, mem, len));
    CarryZeroExactly(Total(big, mem[i := b], len));
    TotalChange(big, mem, len, i, b);
    var d := Weight(big, i) * (b - mem[i]);
    assert -65535 < d < 65535 && d != 0;
    NotBothMultiples(Total(big, mem, len), d);
  }

  lemma NotBothMultiples(x: int, d: int)
    requires x % 65535 == 0 && -65535 < d < 65535 && d != 0
    ensures (x + d) % 65535 != 0
  {
  }

  /** Two words that differ leave the same remainder exactly when they are the least and the greatest. */
  lemma WordsAlike(x: int, w: nat, w': nat)
    requires w < 65536 && w' < 65536 && x % 65535 == 0
    ensures (x + w' - w) % 65535 == 0 <==> w == w' || (w == 0 && w' == 65535) || (w == 65535 && w' == 0)
  {
    if w != w' && -65535 < w' - w < 65535 {
      NotBothMultiples(x, w' - w);
    }
  }

  lemma WordSpan(big: bool, b1: Byte, b2: Byte)
    ensures Word(big, b1, b2) < 65536
  {
  }

  /**
    Replacing a word of a buffer that verifies goes unnoticed exactly when it exchanges 0x0000 and
    0xffff and, where 0xffff is taken out, some other word is left that is not zero.
   */
  lemma WordErrorExactly(big: bool, mem: seq<Byte>, len: nat, p: nat, b1: Byte, b2: Byte)
    requires len <= |mem| && len <= IP_LEN_MAX && p < len / 2
    requires Carry(Total(big, mem, len)) == 0
    ensures var w, w' := Word(big, mem[2 * p], mem[2 * p + 1]), Word(big, b1, b2);
            Carry(Total(big, mem[2 * p := b1][2 * p + 1 := b2], len)) == 0
            <==> || w == w' || (w == 0 && w' == 65535)
                 || (w == 65535 && w' == 0 && Total(big, mem, len) > 65535)
  {
    var mem' := mem[2 * p := b1][2 * p + 1 := b2];
    hide Total, Word, Carry;
    WordChange(big, mem, len, p, b1, b2);
    TotalFitsInt(big, mem, len);
    TotalFitsInt(big, mem', len);
    CarryZeroExactly(Total(big, mem, len));
    CarryZeroExactly(Total(big, mem', len));
    WordSpan(big, b1, b2);
    WordSpan(big, mem[2 * p], mem[2 * p + 1]);
    WordsAlike(Total(big, mem, len), Word(big, mem[2 * p], mem[2 * p + 1]), Word(big, b1, b2));
  }
}
