/** One's-complement arithmetic on 16-bit words, as the Internet checksum uses it
    (RFC 1071 sections 1 and 2). */
module OnesComplement {
  import opened MachineInts

  /** The byte order of the host: how two bytes in memory read as one word. */
  datatype Order = Little | Big

  function Word(e: Order, a: byte, b: byte): (w: u16) {
    if e.Little? then a + 256 * b else 256 * a + b
  }

  /** Addition with end-around carry. */
  function OnesAdd(x: u16, y: u16): (r: u16) {
    if x + y > 0xffff then x + y - 0xffff else x + y
  }

  /** The 16-bit one's-complement sum of the words of `s`; a last odd byte is padded. */
  function OnesSum(e: Order, s: seq<byte>): u16 {
    if s == [] then 0
    else if |s| == 1 then Word(e, s[0], 0)
    else OnesAdd(Word(e, s[0], s[1]), OnesSum(e, s[2..]))
  }

  /** The plain sum of the same words. */
  function WordSum(e: Order, s: seq<byte>): nat {
    if s == [] then 0
    else if |s| == 1 then Word(e, s[0], 0)
    else Word(e, s[0], s[1]) + WordSum(e, s[2..])
  }

  // ------------------------------------------- numbers modulo 65535, two zeros apart

  /** The 16-bit value that a number folds to: the same modulo 65535, and 0 only for 0. */
  function Norm(a: nat): (r: u16)
    ensures r == 0 <==> a == 0
  {
    if a == 0 then 0 else (a - 1) % 65535 + 1
  }

  lemma NormSmall(a: nat)
    requires a <= 0xffff
    ensures Norm(a) == a
  {
  }

  lemma NormShift(a: nat, k: nat)
    requires a > 0
    ensures Norm(a + 65535 * k) == Norm(a)
    decreases k
  {
    if k > 0 { NormShift(a + 65535, k - 1); }
  }

  /** Two numbers that differ by a multiple of 65535, neither or both zero, fold alike. */
  lemma NormCongruent(a: nat, b: nat, k: int)
    requires a == b + 65535 * k && (a == 0 <==> b == 0)
    ensures Norm(a) == Norm(b)
  {
    if a > 0 {
      if k >= 0 { NormShift(b, k); } else { NormShift(a, -k); }
    }
  }

  lemma NormDecompose(a: nat) returns (k: nat)
    ensures a == Norm(a) + 65535 * k
  {
    k := if a == 0 then 0 else (a - 1) / 65535;
  }

  lemma NormAdd(a: nat, b: nat)
    ensures Norm(a + b) == Norm(Norm(a) + b) == Norm(a + Norm(b)) == Norm(Norm(a) + Norm(b))
  {
    hide Norm;
    var j := NormDecompose(a);
    var k := NormDecompose(b);
    NormCongruent(a + b, Norm(a) + b, j);
    NormCongruent(a + b, a + Norm(b), k);
    NormCongruent(a + b, Norm(a) + Norm(b), j + k);
  }

  lemma NormSame(a: nat, b: nat, c: nat)
    requires Norm(a) == Norm(b)
    ensures Norm(a + c) == Norm(b + c)
  {
    hide Norm;
    NormAdd(a, c);
    NormAdd(b, c);
  }

  lemma OnesAddIsNorm(x: u16, y: u16)
    ensures OnesAdd(x, y) == Norm(x + y)
  {
  }

  /** The one's-complement sum is the folded plain sum. */
  lemma {:induction false} OnesSumIsNorm(e: Order, s: seq<byte>)
    ensures OnesSum(e, s) == Norm(WordSum(e, s))
  {
    hide Norm;
    if |s| <= 1 {
      NormSmall(WordSum(e, s));
    } else {
      OnesSumIsNorm(e, s[2..]);
      OnesAddIsNorm(Word(e, s[0], s[1]), OnesSum(e, s[2..]));
      NormAdd(Word(e, s[0], s[1]), WordSum(e, s[2..]));
    }
  }

  // ------------------------------------------------------- folding and swapping

  /** `FOLD_U32T`. */
  function Fold(u: u32): (r: u32) {
    u / 0x10000 + u % 0x10000
  }

  lemma FoldKeepsNorm(u: u32)
    ensures Norm(Fold(u)) == Norm(u)
  {
    hide Norm;
    NormCongruent(u, Fold(u), u / 0x10000);
  }

  /** One fold is enough for the sum of two words, two folds for any 32-bit sum. */
  lemma FoldOnce(u: u32)
    requires u <= 0x1fffe
    ensures Fold(u) == Norm(u)
  {
    FoldKeepsNorm(u);
    NormSmall(Fold(u));
  }

  lemma FoldTwice(u: u32)
    ensures Fold(Fold(u)) == Norm(u)
  {
    hide Norm;
    FoldKeepsNorm(u);
    assert Fold(u) <= 0x1fffe;
    FoldOnce(Fold(u));
  }

  /** `SWAP_BYTES_IN_WORD`: the upper half of its argument is dropped. */
  function Swap(u: u32): (r: u16) {
    (u % 256) * 256 + (u / 256) % 256
  }

  lemma SwapTwice(w: u16)
    ensures Swap(Swap(w)) == w
  {
    var hi, lo := w / 256, w % 256;
    assert Swap(w) / 256 == lo && Swap(w) % 256 == hi;
  }

  /** Swapping the bytes of a folded sum multiplies the sum by 256. */
  lemma SwapIsShift(a: nat)
    ensures Swap(Norm(a)) == Norm(256 * a)
  {
    hide Norm;
    var k := NormDecompose(a);
    var w: int := Norm(a);
    var hi := w / 256;
    assert Swap(w) + 65535 * hi == 256 * w;
    NormCongruent(256 * a, Swap(w), 256 * k + hi);
    NormSmall(Swap(w));
  }

  // --------------------------------------------------------- cutting byte strings

  /** Byte `b` alone in the first or in the second position of a word. */
  lemma WordSplits(e: Order, a: byte, b: byte)
    ensures Word(e, a, b) == Word(e, a, 0) + Word(e, 0, b)
  {
  }

  lemma WordShifts(e: Order, a: byte, b: byte)
    ensures Norm(256 * Word(e, a, b)) == Norm(Word(e, 0, a) + Word(e, b, 0))
  {
    hide Norm;
    if e.Little? {
      NormCongruent(256 * Word(e, a, b), Word(e, 0, a) + Word(e, b, 0), b);
    } else {
      NormCongruent(256 * Word(e, a, b), Word(e, 0, a) + Word(e, b, 0), a);
    }
  }

  lemma WordSumFirst(e: Order, x: byte, s: seq<byte>)
    ensures WordSum(e, [x] + s) == Word(e, x, 0) + WordSum(e, [0] + s)
  {
    if s != [] {
      WordSplits(e, x, s[0]);
      assert ([x] + s)[2..] == s[1..] && ([0] + s)[2..] == s[1..];
      assert ([x] + s)[1] == s[0] && ([0] + s)[1] == s[0];
    }
  }

  /** Moving a byte string to the other byte lane multiplies its sum by 256. */
  lemma {:induction false} WordSumShift(e: Order, s: seq<byte>)
    ensures Norm(WordSum(e, [0] + s)) == Norm(256 * WordSum(e, s))
  {
    hide Norm;
    if s == [] {
    } else if |s| == 1 {
      WordShifts(e, s[0], 0);
      assert ([0] + s)[2..] == [];
    } else {
      var x, y, rest := s[0], s[1], s[2..];
      WordSumShift(e, rest);
      assert [0] + s == [0, x] + ([y] + rest);
      assert ([0] + s)[2..] == [y] + rest;
      WordSumFirst(e, y, rest);
      WordShifts(e, x, y);
      ShiftStep(Word(e, 0, x) + Word(e, y, 0), WordSum(e, [0] + rest), 256 * Word(e, x, y), 256 * WordSum(e, rest));
    }
  }

  lemma ShiftStep(a: nat, b: nat, c: nat, d: nat)
    requires Norm(a) == Norm(c) && Norm(b) == Norm(d)
    ensures Norm(a + b) == Norm(c + d)
  {
    hide Norm;
    NormSame(a, c, b);
    NormSame(b, d, c);
  }

  /** The sum of a concatenation: the second part shifts if the first has odd length. */
  lemma {:induction false} WordSumConcat(e: Order, a: seq<byte>, b: seq<byte>)
    ensures |a| % 2 == 0 ==> WordSum(e, a + b) == WordSum(e, a) + WordSum(e, b)
    ensures |a| % 2 == 1 ==> Norm(WordSum(e, a + b)) == Norm(WordSum(e, a) + 256 * WordSum(e, b))
  {
    hide Norm, Word;
    if a == [] {
      assert a + b == b;
    } else if |a| == 1 {
      assert a + b == [a[0]] + b;
      WordSumFirst(e, a[0], b);
      WordSumShift(e, b);
      ShiftStep(Word(e, a[0], 0), WordSum(e, [0] + b), Word(e, a[0], 0), 256 * WordSum(e, b));
    } else {
      WordSumConcat(e, a[2..], b);
      assert (a + b)[2..] == a[2..] + b && (a + b)[0] == a[0] && (a + b)[1] == a[1];
      if |a| % 2 == 1 {
        ShiftStep(Word(e, a[0], a[1]), WordSum(e, a[2..] + b),
                  Word(e, a[0], a[1]), WordSum(e, a[2..]) + 256 * WordSum(e, b));
      }
    }
  }

  /** Byte order only swaps the result (RFC 1071 section 2, part B). */
  lemma {:induction false} OrderOnlySwaps(s: seq<byte>)
    ensures Norm(WordSum(Big, s)) == Norm(256 * WordSum(Little, s))
  {
    hide Norm;
    if s == [] {
    } else if |s| == 1 {
    } else {
      OrderOnlySwaps(s[2..]);
      NormCongruent(256 * Word(Little, s[0], s[1]), Word(Big, s[0], s[1]), s[1]);
      ShiftStep(Word(Big, s[0], s[1]), WordSum(Big, s[2..]),
                256 * Word(Little, s[0], s[1]), 256 * WordSum(Little, s[2..]));
    }
  }

  lemma {:induction false} WordSumBound(e: Order, s: seq<byte>)
    ensures WordSum(e, s) <= (|s| + 1) / 2 * 0xffff
  {
    if |s| > 1 { WordSumBound(e, s[2..]); }
  }
}
