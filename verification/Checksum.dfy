/** The Internet checksum routines of lwip/src/core/inet_chksum.c.

    A buffer is the byte string it holds and, where the code looks at it, the address of
    its first byte.  Words are read from memory in the byte order `e` of the host. */
module Checksum {
  import opened MachineInts
  import opened OnesComplement

  /** `lwip_htons`. */
  function Htons(e: Order, w: u16): (r: u16) {
    if e.Little? then Swap(w) else w
  }

  function Add32(a: u32, b: u32): (r: u32) {
    (a + b) % 0x1_0000_0000
  }

  /** Addition of 32-bit words with the carry added back (`tmp = sum + *pl++; if (tmp < sum) tmp++`). */
  function AddCarry(sum: u32, x: u32): (r: u32) {
    var tmp := Add32(sum, x);
    if tmp < sum then tmp + 1 else tmp
  }

  lemma AddCarryKeepsNorm(sum: u32, x: u32)
    ensures Norm(AddCarry(sum, x)) == Norm(sum + x)
  {
    hide Norm;
    if sum + x >= 0x1_0000_0000 {
      assert Add32(sum, x) == sum + x - 0x1_0000_0000;
      NormCongruent(sum + x, sum + x - 0xffff_ffff, 65537);
    }
  }

  /** A 32-bit load. */
  function Load32(e: Order, a: byte, b: byte, c: byte, d: byte): (r: u32) {
    if e.Little? then Word(e, a, b) + 0x10000 * Word(e, c, d) else 0x10000 * Word(e, a, b) + Word(e, c, d)
  }

  lemma Load32Norm(e: Order, a: byte, b: byte, c: byte, d: byte)
    ensures Norm(Load32(e, a, b, c, d)) == Norm(Word(e, a, b) + Word(e, c, d))
  {
    hide Norm;
    var x: int, y: int := Word(e, a, b), Word(e, c, d);
    NormCongruent(Load32(e, a, b, c, d), x + y, if e.Little? then y else x);
  }

  lemma WordSumStep(e: Order, s: seq<byte>, i: nat)
    requires i + 1 < |s|
    ensures WordSum(e, s[i..]) == Word(e, s[i], s[i + 1]) + WordSum(e, s[i + 2..])
  {
    assert s[i..][2..] == s[i + 2..];
  }

  lemma WordSumEnd(e: Order, s: seq<byte>, i: nat)
    requires i <= |s| <= i + 1
    ensures WordSum(e, s[i..]) == if i < |s| then Word(e, s[i], 0) else 0
  {
  }

  // -------------------------------------------------------- the three algorithms

  /** `while (len > 1) { sum += *ps++; len -= 2; }` from byte `from` on. */
  method AddWords(e: Order, data: seq<byte>, from: nat, start: u32) returns (sum: u32, i: nat)
    requires from <= |data| && start + WordSum(e, data[from..]) < 0x1_0000_0000
    ensures from <= i <= |data| < i + 2 && (i - from) % 2 == 0
    ensures sum + WordSum(e, data[i..]) == start + WordSum(e, data[from..])
  {
    hide WordSum;
    sum, i := start, from;
    while i + 1 < |data|
      invariant from <= i <= |data| && (i - from) % 2 == 0
      invariant sum + WordSum(e, data[i..]) == start + WordSum(e, data[from..])
    {
      WordSumStep(e, data, i);
      sum := Add32(sum, Word(e, data[i], data[i + 1]));
      i := i + 2;
    }
  }

  /** Version 1: byte by byte in network order, reordered at the end. */
  method Standard1(e: Order, data: seq<byte>) returns (r: u16)
    requires |data| <= 0x20000
    ensures r == OnesSum(e, data)
  {
    hide Norm, WordSum, Fold, Swap;
    WordSumBound(Big, data);
    assert data[0..] == data;
    var acc, i := AddWords(Big, data, 0, 0);
    WordSumEnd(Big, data, i);
    if i < |data| {
      acc := Add32(acc, Word(Big, data[i], 0));
    }
    FoldWhileCarry(acc);
    acc := Fold(acc);
    if acc > 0xffff {
      acc := Fold(acc);
    }
    Standard1Result(e, data, acc);
    r := Htons(e, acc);
  }

  lemma FoldWhileCarry(u: u32)
    ensures Norm(u) == if Fold(u) > 0xffff then Fold(Fold(u)) else Fold(u)
  {
    hide Norm;
    FoldTwice(u);
  }

  lemma Standard1Result(e: Order, data: seq<byte>, acc: u16)
    requires acc == Norm(WordSum(Big, data))
    ensures Htons(e, acc) == OnesSum(e, data)
  {
    hide Norm, Swap;
    OnesSumIsNorm(e, data);
    if e.Little? {
      OrderOnlySwaps(data);
      SwapIsShift(WordSum(Little, data));
      SwapTwice(OnesSum(Little, data));
    }
  }

  /** The last steps of versions 2 and 3: fold, and swap if the buffer began at an odd address. */
  lemma UnalignedResult(e: Order, data: seq<byte>, odd: bool, sum: u32)
    requires Norm(sum) == Norm(WordSum(e, if odd then [0] + data else data))
    ensures (if odd then Swap(Fold(Fold(sum))) else Fold(Fold(sum))) == OnesSum(e, data)
  {
    hide Norm, Swap, Fold;
    FoldTwice(sum);
    OnesSumIsNorm(e, data);
    if odd {
      WordSumShift(e, data);
      SwapIsShift(WordSum(e, data));
      SwapTwice(OnesSum(e, data));
    }
  }

  /** Version 2: 16-bit loads from an even address, the bytes at either end apart. */
  method Standard2(e: Order, address: nat, data: seq<byte>) returns (r: u16)
    requires |data| <= 0x20000
    ensures r == OnesSum(e, data)
  {
    hide Norm, WordSum, Swap, Fold, Word;
    var odd := address % 2 == 1;
    ghost var padded := if odd then [0] + data else data;
    WordSumBound(e, padded);
    var t1: byte, i: nat := 0, 0;
    if odd && |data| > 0 {
      t1 := data[0];
      i := 1;
    }
    PaddedStart(e, data, odd);
    var sum: u32;
    sum, i := AddWords(e, data, i, 0);
    r := AddEnds(e, data, odd, i, t1, sum);
  }

  /** The common end of versions 2 and 3: a left-over byte, the end bytes, folding, swapping. */
  method AddEnds(e: Order, data: seq<byte>, odd: bool, i: nat, t1: byte, start: u32) returns (r: u16)
    requires i <= |data| <= i + 1 && Word(e, 0, t1) + start + WordSum(e, data[i..]) < 0x1_0000_0000
    requires Norm(Word(e, 0, t1) + start + WordSum(e, data[i..])) == Norm(WordSum(e, if odd then [0] + data else data))
    ensures r == OnesSum(e, data)
  {
    hide Norm, WordSum, Swap, Fold, Word;
    var t0: byte := 0;
    WordSumEnd(e, data, i);
    if i < |data| {
      t0 := data[i];
    }
    WordSplits(e, t0, t1);
    WordZero(e);
    var sum := Add32(start, Word(e, t0, t1));
    UnalignedResult(e, data, odd, sum);
    sum := Fold(sum);
    sum := Fold(sum);
    if odd {
      sum := Swap(sum);
    }
    r := sum;
  }

  lemma PaddedStart(e: Order, data: seq<byte>, odd: bool)
    ensures data[0..] == data && WordSum(e, []) == 0 && Word(e, 0, 0) == 0
    ensures odd && |data| > 0 ==> WordSum(e, [0] + data) == Word(e, 0, data[0]) + WordSum(e, data[1..])
    ensures odd && |data| == 0 ==> WordSum(e, [0] + data) == 0
  {
    if |data| > 0 { assert ([0] + data)[2..] == data[1..]; }
  }

  /** Version 3: 32-bit loads with end-around carry, for any length. */
  method Standard3(e: Order, address: nat, data: seq<byte>) returns (r: u16)
    ensures r == OnesSum(e, data)
  {
    hide Norm, WordSum, Swap, Fold, AddCarry, Load32, Word;
    var odd := address % 2 == 1;
    ghost var padded := if odd then [0] + data else data;
    var t1: byte, i: nat := 0, 0;
    if odd && |data| > 0 {
      t1 := data[0];
      i := 1;
    }
    PaddedStart(e, data, odd);
    var sum: u32 := 0;
    if (address + i) % 4 != 0 && i + 1 < |data| {
      WordSumStep(e, data, i);
      sum := Word(e, data[i], data[i + 1]);
      i := i + 2;
    }
    ghost var head := Word(e, 0, t1);
    while i + 7 < |data|
      invariant 0 <= i <= |data|
      invariant Norm(head + sum + WordSum(e, data[i..])) == Norm(WordSum(e, padded))
    {
      EightBytes(e, data, i, sum, head);
      var tmp := AddCarry(sum, Load32(e, data[i], data[i + 1], data[i + 2], data[i + 3]));
      sum := AddCarry(tmp, Load32(e, data[i + 4], data[i + 5], data[i + 6], data[i + 7]));
      i := i + 8;
    }
    FoldInside(head, sum, WordSum(e, data[i..]));
    sum := Fold(sum);
    WordSumBound(e, data[i..]);
    sum, i := AddWords(e, data, i, sum);
    r := AddEnds(e, data, odd, i, t1, sum);
  }

  lemma WordZero(e: Order)
    ensures Word(e, 0, 0) == 0
  {
  }

  /** One round of the unrolled loop. */
  lemma EightBytes(e: Order, data: seq<byte>, i: nat, sum: u32, head: nat)
    requires i + 7 < |data|
    ensures var tmp := AddCarry(sum, Load32(e, data[i], data[i + 1], data[i + 2], data[i + 3]));
            var sum' := AddCarry(tmp, Load32(e, data[i + 4], data[i + 5], data[i + 6], data[i + 7]));
            Norm(head + sum' + WordSum(e, data[i + 8..])) == Norm(head + sum + WordSum(e, data[i..]))
  {
    hide Norm, WordSum, AddCarry, Load32, Word;
    var tmp := AddCarry(sum, Load32(e, data[i], data[i + 1], data[i + 2], data[i + 3]));
    WordSumStep(e, data, i);
    WordSumStep(e, data, i + 2);
    WordSumStep(e, data, i + 4);
    WordSumStep(e, data, i + 6);
    FourBytes(e, sum, data[i], data[i + 1], data[i + 2], data[i + 3], head + WordSum(e, data[i + 4..]));
    FourBytes(e, tmp, data[i + 4], data[i + 5], data[i + 6], data[i + 7], head + WordSum(e, data[i + 8..]));
  }

  lemma FourBytes(e: Order, sum: u32, a: byte, b: byte, c: byte, d: byte, rest: nat)
    ensures Norm(AddCarry(sum, Load32(e, a, b, c, d)) + rest) == Norm(sum + (Word(e, a, b) + Word(e, c, d)) + rest)
  {
    hide Norm, AddCarry, Load32, Word;
    var x := Load32(e, a, b, c, d);
    AddCarryKeepsNorm(sum, x);
    Load32Norm(e, a, b, c, d);
    ShiftStep(sum, x, sum, Word(e, a, b) + Word(e, c, d));
    NormSame(AddCarry(sum, x), sum + (Word(e, a, b) + Word(e, c, d)), rest);
  }

  lemma FoldInside(head: nat, sum: u32, rest: nat)
    ensures Norm(head + Fold(sum) + rest) == Norm(head + sum + rest) && Fold(sum) <= 0x1fffe
  {
    hide Norm;
    FoldKeepsNorm(sum);
    NormSame(Fold(sum), sum, head + rest);
  }
}
